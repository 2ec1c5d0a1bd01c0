/** MissionGraphGenerator: builds a linear mission graph. Key/lock pairs and
    exploration nodes are created into three pools, which are then drained one
    node at a time by a priority rule (exploration, then key, then a lock whose
    key is placed), each drawn node chained to the previous one and the last to
    the goal. */
module MissionGraphGenerator {
  import opened Geometry
  import opened Helpers
  import opened MissionGraph
  import opened MissionPools

  /** The positions lo, lo+1, ..., hi-1. */
  function Range(lo: nat, hi: nat): (r: seq<nat>)
    ensures |r| == if hi > lo then hi - lo else 0
    ensures forall i :: 0 <= i < |r| ==> r[i] == lo + i
  {
    seq(if hi > lo then hi - lo else 0, i => lo + i)
  }

  /** The key positions 1, 3, ... and the lock positions 2, 4, ... of c
      challenges together are the positions 1 .. 2c. */
  lemma {:induction false} ChallengePositions(c: nat)
    ensures multiset(EveryOther(1, c)) + multiset(EveryOther(2, c)) == multiset(Range(1, 1 + 2 * c))
  {
    if c > 0 {
      ChallengePositions(c - 1);
      ChallengeStep(c);
    }
  }

  /** The induction step of ChallengePositions: challenge c adds positions 2c - 1 and 2c. */
  lemma {:induction false} ChallengeStep(c: nat)
    requires c > 0
    requires multiset(EveryOther(1, c - 1)) + multiset(EveryOther(2, c - 1)) == multiset(Range(1, 1 + 2 * (c - 1)))
    ensures multiset(EveryOther(1, c)) + multiset(EveryOther(2, c)) == multiset(Range(1, 1 + 2 * c))
  {
    var x, y: nat := 1 + 2 * (c - 1), 2 + 2 * (c - 1);
    assert EveryOther(1, c) == EveryOther(1, c - 1) + [x];
    assert EveryOther(2, c) == EveryOther(2, c - 1) + [y];
    assert Range(1, 1 + 2 * c) == Range(1, 1 + 2 * (c - 1)) + [x, y];
    AppendTwo(EveryOther(1, c - 1), EveryOther(2, c - 1), Range(1, 1 + 2 * (c - 1)), x, y);
  }

  /** Appending x to one sequence and y to another appends both to their merge. */
  lemma AppendTwo(a: seq<nat>, b: seq<nat>, ab: seq<nat>, x: nat, y: nat)
    requires multiset(a) + multiset(b) == multiset(ab)
    ensures multiset(a + [x]) + multiset(b + [y]) == multiset(ab + [x, y])
  {
    assert ab + [x, y] == ab + [x] + [y];
  }

  /** The n ids first, first + 2, first + 4, ... */
  function EveryOther(first: nat, n: nat): (r: seq<nat>)
    ensures |r| == n
  {
    if n == 0 then [] else EveryOther(first, n - 1) + [first + 2 * (n - 1)]
  }

  lemma {:induction false} EveryOtherAt(first: nat, n: nat)
    ensures forall t :: 0 <= t < n ==> EveryOther(first, n)[t] == first + 2 * t
  {
    if n > 0 {
      EveryOtherAt(first, n - 1);
      assert forall t :: 0 <= t < n - 1 ==> EveryOther(first, n)[t] == EveryOther(first, n - 1)[t];
    }
  }

  /** The chain through entrance, `order` and goal. */
  function Path(entrance: nat, order: seq<nat>, goal: nat): seq<nat> {
    [entrance] + order + [goal]
  }

  class MissionGraphGenerator {
    /** The inspector settings, which the generator only reads. */
    const challengeAmount: int
    const explorationAmount: int
    const availableMechanics: seq<Mechanic>
    const maxMechanicsPerChallenge: int

    var missionGraph: Graph
    var entranceNode: nat
    var goalNode: nat
    var availableKeyNodes: seq<nat>
    var availableLockNodes: seq<nat>
    var availableExplorationNodes: seq<nat>
    var placedKeys: seq<int>

    /** The nodes GetNextNode has drawn since ConnectAllNodes began, in order. */
    ghost var placed: seq<nat>
    /** placedKeys as it was when ConnectAllNodes began. */
    ghost var preset: seq<int>

    /** The inspector defaults: 3 challenges, 3 explorations, 1 mechanic per challenge. */
    constructor (mechanics: seq<Mechanic>)
      ensures challengeAmount == 3 && explorationAmount == 3 && maxMechanicsPerChallenge == 1
      ensures availableMechanics == mechanics
      ensures Idle() && placedKeys == []
    {
      challengeAmount := 3;
      explorationAmount := 3;
      availableMechanics := mechanics;
      maxMechanicsPerChallenge := 1;
      missionGraph := EmptyGraph;
      entranceNode := 0;
      goalNode := 0;
      availableKeyNodes := [];
      availableLockNodes := [];
      availableExplorationNodes := [];
      placedKeys := [];
      placed := [];
      preset := [];
    }

    /** All three pools are empty: the state before and after a generation. */
    ghost predicate Idle()
      reads this
    {
      availableKeyNodes == [] && availableLockNodes == [] && availableExplorationNodes == []
    }

    /** The graph and the pools as GenerateMissionGraph has built them after
        the entrance, c challenges and e explorations. */
    ghost predicate StagedAt(c: nat, e: nat)
      reads this
    {
      Staged(missionGraph, availableKeyNodes, availableLockNodes, availableExplorationNodes, c, e,
        availableMechanics, maxMechanicsPerChallenge)
    }

    /** The pools hold nodes of the right kinds, and the lock pool can always
        supply a lock whose key is placed when it is the larger pool. */
    ghost predicate PoolsValid()
      reads this
    {
      PoolsOk(missionGraph.nodes, availableKeyNodes, availableLockNodes, availableExplorationNodes, placedKeys, placed, preset)
    }

    /** The nodes still in the three pools. */
    ghost function Contents(): multiset<nat>
      reads this
    {
      multiset(availableKeyNodes) + multiset(availableLockNodes) + multiset(availableExplorationNodes)
    }

    /** GetAvailableNodeCount: the nodes still to be placed, entrance and goal excluded. */
    function GetAvailableNodeCount(): nat
      reads this
    {
      |availableExplorationNodes| + |availableKeyNodes| + |availableLockNodes|
    }

    /** GetRandomMechanicsSet: between 1 and maxMechanicsPerChallenge - 1
        mechanics (exactly 1 when that maximum is 1), each drawn from
        availableMechanics, repetitions allowed. */
    method GetRandomMechanicsSet() returns (mechanics: seq<Mechanic>)
      requires |availableMechanics| > 0 && maxMechanicsPerChallenge >= 1
      ensures 1 <= |mechanics|
      ensures |mechanics| < maxMechanicsPerChallenge || |mechanics| == 1
      ensures forall m :: m in mechanics ==> m in availableMechanics
    {
      assert InRandomRange(1, 1, maxMechanicsPerChallenge);
      var amount :| InRandomRange(amount, 1, maxMechanicsPerChallenge);
      assert InRandomRange(amount, 1, maxMechanicsPerChallenge);
      mechanics := [];
      for i := 0 to amount
        invariant |mechanics| == i
        invariant forall m :: m in mechanics ==> m in availableMechanics
      {
        assert availableMechanics[0] in availableMechanics;
        var m :| m in availableMechanics;
        mechanics := mechanics + [m];
      }
    }

    /** AddEntranceNode: the entrance becomes the next node of the graph. */
    method AddEntranceNode()
      modifies this`missionGraph, this`entranceNode
      ensures missionGraph == AddNode(old(missionGraph), MissionNodeData(Entrance, -1, []))
      ensures entranceNode == |old(missionGraph.nodes)|
      ensures old(missionGraph) == EmptyGraph && old(Idle()) ==> StagedAt(0, 0)
    {
      var entrance := MissionNodeData(Entrance, -1, []);
      entranceNode := |missionGraph.nodes|;
      missionGraph := AddNode(missionGraph, entrance);
    }

    /** AddGoalNode: the goal becomes the next node of the graph. */
    method AddGoalNode()
      modifies this`missionGraph, this`goalNode
      ensures missionGraph == AddNode(old(missionGraph), MissionNodeData(Goal, -1, []))
      ensures goalNode == |old(missionGraph.nodes)|
    {
      var goal := MissionNodeData(Goal, -1, []);
      goalNode := |missionGraph.nodes|;
      missionGraph := AddNode(missionGraph, goal);
    }

    /** AddChallengeNodes: for t = 0 .. challengeAmount-1, Key(t) with a random
        mechanics set and then Lock(t) are added to the graph and to the key and
        lock pools. Specified for the state GenerateMissionGraph calls it in. */
    method AddChallengeNodes()
      requires challengeAmount > 0 ==> |availableMechanics| > 0 && maxMechanicsPerChallenge >= 1
      modifies this`missionGraph, this`availableKeyNodes, this`availableLockNodes
      ensures old(StagedAt(0, 0)) ==> StagedAt(Count(challengeAmount), 0)
    {
      var i := 0;
      while i < challengeAmount
        invariant 0 <= i && (challengeAmount > 0 ==> i <= challengeAmount) && (challengeAmount <= 0 ==> i == 0)
        invariant old(StagedAt(0, 0)) ==> StagedAt(i, 0)
      {
        AddChallenge(i);
        i := i + 1;
      }
    }

    /** One iteration of AddChallengeNodes: Key(t) with a random mechanics set
        and then Lock(t) join the graph and the key and lock pools. */
    method AddChallenge(t: nat)
      requires |availableMechanics| > 0 && maxMechanicsPerChallenge >= 1
      modifies this`missionGraph, this`availableKeyNodes, this`availableLockNodes
      ensures |missionGraph.nodes| == |old(missionGraph.nodes)| + 2
      ensures var key := missionGraph.nodes[|old(missionGraph.nodes)|];
        IsKeyNode(key, t, availableMechanics, maxMechanicsPerChallenge) &&
        missionGraph == AddNode(AddNode(old(missionGraph), key), MissionNodeData(Lock, t, []))
      ensures availableKeyNodes == old(availableKeyNodes) + [|old(missionGraph.nodes)|]
      ensures availableLockNodes == old(availableLockNodes) + [|old(missionGraph.nodes)| + 1]
      ensures old(StagedAt(t, 0)) ==> StagedAt(t + 1, 0)
    {
      var mechanics := GetRandomMechanicsSet();
      var keyData := MissionNodeData(Key, t, mechanics);
      ghost var before, keys, locks := missionGraph, availableKeyNodes, availableLockNodes;
      availableKeyNodes := availableKeyNodes + [|missionGraph.nodes|];
      missionGraph := AddNode(missionGraph, keyData);
      var lockData := MissionNodeData(Lock, t, []);
      availableLockNodes := availableLockNodes + [|missionGraph.nodes|];
      missionGraph := AddNode(missionGraph, lockData);
      if old(StagedAt(t, 0)) {
        StagedChallenge(before, keys, locks, availableExplorationNodes, t, availableMechanics, maxMechanicsPerChallenge, keyData);
      }
    }

    /** AddExplorationNodes: explorationAmount exploration nodes are added to
        the graph and to the exploration pool. Specified for the state
        GenerateMissionGraph calls it in. */
    method AddExplorationNodes()
      modifies this`missionGraph, this`availableExplorationNodes
      ensures old(StagedAt(Count(challengeAmount), 0)) ==> StagedAt(Count(challengeAmount), Count(explorationAmount))
    {
      var i := 0;
      while i < explorationAmount
        invariant 0 <= i && (explorationAmount > 0 ==> i <= explorationAmount) && (explorationAmount <= 0 ==> i == 0)
        invariant old(StagedAt(Count(challengeAmount), 0)) ==> StagedAt(Count(challengeAmount), i)
      {
        var data := MissionNodeData(Exploration, -1, []);
        ghost var before, explorations := missionGraph, availableExplorationNodes;
        availableExplorationNodes := availableExplorationNodes + [|missionGraph.nodes|];
        missionGraph := AddNode(missionGraph, data);
        if old(StagedAt(Count(challengeAmount), 0)) {
          StagedExploration(before, availableKeyNodes, availableLockNodes, explorations, Count(challengeAmount), i,
            availableMechanics, maxMechanicsPerChallenge);
        }
        i := i + 1;
      }
    }

    /** GetNextNode: draws one node from the pool SelectPool picks, removes it
        from that pool only, and records a key's number in placedKeys. The lock
        pool is shuffled before the search, and the search always finds a lock
        whose key is placed. */
    method GetNextNode() returns (node: nat)
      requires PoolsValid() && GetAvailableNodeCount() > 0
      modifies this`availableKeyNodes, this`availableLockNodes, this`availableExplorationNodes, this`placedKeys, this`placed
      ensures PoolsValid()
      ensures GetAvailableNodeCount() == old(GetAvailableNodeCount()) - 1
      ensures placed == old(placed) + [node]
      ensures Contents() + multiset{node} == old(Contents())
      ensures match SelectPool(old(|availableExplorationNodes|), old(|availableKeyNodes|), old(|availableLockNodes|))
        case Explorations =>
          node in old(availableExplorationNodes) &&
          availableExplorationNodes == RemoveFirst<nat>(old(availableExplorationNodes), node) &&
          availableKeyNodes == old(availableKeyNodes) && availableLockNodes == old(availableLockNodes) &&
          placedKeys == old(placedKeys)
        case Keys =>
          node in old(availableKeyNodes) &&
          availableKeyNodes == RemoveFirst<nat>(old(availableKeyNodes), node) &&
          availableExplorationNodes == old(availableExplorationNodes) && availableLockNodes == old(availableLockNodes) &&
          placedKeys == old(placedKeys) + [missionGraph.nodes[node].keyNr]
        case Locks =>
          node in old(availableLockNodes) && missionGraph.nodes[node].keyNr in old(placedKeys) &&
          multiset(availableLockNodes) + multiset{node} == multiset(old(availableLockNodes)) &&
          availableExplorationNodes == old(availableExplorationNodes) && availableKeyNodes == old(availableKeyNodes) &&
          placedKeys == old(placedKeys)
    {
      ghost var keys, locks, explorations := multiset(availableKeyNodes), multiset(availableLockNodes), multiset(availableExplorationNodes);
      if |availableExplorationNodes| > |availableKeyNodes| {
        node := DrawExplorationNode();
        DrawnFrom(keys, locks, explorations, keys, locks, multiset(availableExplorationNodes), node);
      } else if |availableKeyNodes| >= |availableLockNodes| {
        node := DrawKeyNode();
        DrawnFrom(keys, locks, explorations, multiset(availableKeyNodes), locks, explorations, node);
      } else {
        node := DrawLockNode();
        DrawnFrom(keys, locks, explorations, keys, multiset(availableLockNodes), explorations, node);
      }
    }

    /** The first rule of GetNextNode: a random exploration node. */
    method DrawExplorationNode() returns (node: nat)
      requires PoolsValid() && |availableExplorationNodes| > 0
      modifies this`availableExplorationNodes, this`placed
      ensures PoolsValid()
      ensures node in old(availableExplorationNodes)
      ensures availableExplorationNodes == RemoveFirst<nat>(old(availableExplorationNodes), node)
      ensures multiset(availableExplorationNodes) + multiset{node} == multiset(old(availableExplorationNodes))
      ensures |availableExplorationNodes| == |old(availableExplorationNodes)| - 1
      ensures placed == old(placed) + [node]
    {
      var k :| 0 <= k < |availableExplorationNodes|;
      node := availableExplorationNodes[k];
      DrawExploration(missionGraph.nodes, availableKeyNodes, availableLockNodes, availableExplorationNodes, placedKeys, placed, preset, node);
      RemoveFirstRestores(availableExplorationNodes, node);
      availableExplorationNodes := RemoveFirst<nat>(availableExplorationNodes, node);
      placed := placed + [node];
    }

    /** The second rule of GetNextNode: a random key node, whose number is
        recorded in placedKeys. */
    method DrawKeyNode() returns (node: nat)
      requires PoolsValid() && |availableKeyNodes| > 0 && |availableKeyNodes| >= |availableLockNodes|
      modifies this`availableKeyNodes, this`placedKeys, this`placed
      ensures PoolsValid()
      ensures node in old(availableKeyNodes) && node < |missionGraph.nodes|
      ensures availableKeyNodes == RemoveFirst<nat>(old(availableKeyNodes), node)
      ensures multiset(availableKeyNodes) + multiset{node} == multiset(old(availableKeyNodes))
      ensures |availableKeyNodes| == |old(availableKeyNodes)| - 1
      ensures placedKeys == old(placedKeys) + [missionGraph.nodes[node].keyNr]
      ensures placed == old(placed) + [node]
    {
      var k :| 0 <= k < |availableKeyNodes|;
      node := availableKeyNodes[k];
      DrawKey(missionGraph.nodes, availableKeyNodes, availableLockNodes, availableExplorationNodes, placedKeys, placed, preset, node);
      RemoveFirstRestores(availableKeyNodes, node);
      placedKeys := placedKeys + [missionGraph.nodes[node].keyNr];
      availableKeyNodes := RemoveFirst<nat>(availableKeyNodes, node);
      placed := placed + [node];
    }

    /** The third rule of GetNextNode: the lock pool is shuffled and the first
        lock whose key number is in placedKeys is drawn; there always is one. */
    method DrawLockNode() returns (node: nat)
      requires PoolsValid() && |availableLockNodes| > |availableKeyNodes|
      modifies this`availableLockNodes, this`placed
      ensures PoolsValid()
      ensures node in old(availableLockNodes) && node < |missionGraph.nodes|
      ensures missionGraph.nodes[node].kind == Lock && missionGraph.nodes[node].keyNr in placedKeys
      ensures multiset(availableLockNodes) + multiset{node} == multiset(old(availableLockNodes))
      ensures |availableLockNodes| == |old(availableLockNodes)| - 1
      ensures placed == old(placed) + [node]
    {
      var g := missionGraph.nodes;
      var shuffled: seq<nat> :| multiset(shuffled) == multiset(availableLockNodes);
      LockAvailable(g, availableKeyNodes, availableLockNodes, availableExplorationNodes, placedKeys, placed, preset, shuffled);
      node := FirstLockWithPlacedKey(g, shuffled, placedKeys);
      DrawLock(g, availableKeyNodes, availableLockNodes, availableExplorationNodes, placedKeys, placed, preset, shuffled, node);
      RemoveFirstRestores(shuffled, node);
      assert node in multiset(shuffled);
      availableLockNodes := shuffled;
      availableLockNodes := RemoveFirst<nat>(availableLockNodes, node);
      placed := placed + [node];
    }

    /** The search of GetNextNode's third rule: the first lock of the pool
        whose key number is in placedKeys. */
    method FirstLockWithPlacedKey(g: seq<MissionNodeData>, locks: seq<nat>, placedKeys: seq<int>) returns (node: nat)
      requires OfKind(g, locks, Lock)
      requires exists j :: 0 <= j < |locks| && g[locks[j]].keyNr in placedKeys
      ensures node < |g|
      ensures exists k ::
        0 <= k < |locks| && locks[k] == node && g[node].keyNr in placedKeys &&
        (forall i :: 0 <= i < k ==> g[locks[i]].keyNr !in placedKeys)
    {
      var j := 0;
      while j < |locks| && g[locks[j]].keyNr !in placedKeys
        invariant 0 <= j <= |locks|
        invariant forall i :: 0 <= i < j ==> g[locks[i]].keyNr !in placedKeys
      {
        j := j + 1;
      }
      assert j < |locks|;
      node := locks[j];
    }

    /** One iteration of ConnectAllNodes' loop: the next node is drawn and
        joined to the current one by an edge of weight 1. */
    method ConnectNextNode(currentNode: nat) returns (nextNode: nat)
      requires PoolsValid() && GetAvailableNodeCount() > 0
      modifies this`availableKeyNodes, this`availableLockNodes, this`availableExplorationNodes, this`placedKeys,
        this`placed, this`missionGraph
      ensures PoolsValid()
      ensures missionGraph.nodes == old(missionGraph.nodes)
      ensures missionGraph.edges == old(missionGraph.edges) + [Edge(currentNode, nextNode, 1)]
      ensures placed == old(placed) + [nextNode]
      ensures GetAvailableNodeCount() == old(GetAvailableNodeCount()) - 1
      ensures Contents() + multiset{nextNode} == old(Contents())
    {
      nextNode := GetNextNode();
      missionGraph := AddUndirectedEdge(missionGraph, currentNode, nextNode, 1);
    }

    /** ConnectAllNodes: drains the pools through GetNextNode, chaining every
        drawn node to the previous one (starting at the entrance) and the last
        one to the goal, all edges of weight 1. */
    method ConnectAllNodes()
      requires Prepared()
      modifies this`availableKeyNodes, this`availableLockNodes, this`availableExplorationNodes, this`placedKeys,
        this`placed, this`preset, this`missionGraph
      ensures Idle()
      ensures missionGraph.nodes == old(missionGraph.nodes)
      ensures missionGraph.edges == old(missionGraph.edges) + Chain(Path(entranceNode, placed, goalNode))
      ensures |placed| == old(GetAvailableNodeCount())
      ensures multiset(placed) == old(Contents())
      ensures Within(missionGraph.nodes, placed) && KeysBeforeLocks(missionGraph.nodes, placed, old(placedKeys))
      ensures placedKeys == old(placedKeys) + PlacedKeyNrs(missionGraph.nodes, placed)
    {
      ghost var edges0, pool0, count0 := missionGraph.edges, Contents(), GetAvailableNodeCount();
      FreshPoolsOk(missionGraph.nodes, availableKeyNodes, availableLockNodes, availableExplorationNodes, placedKeys);
      preset := placedKeys;
      placed := [];
      var currentNode := entranceNode;
      var nextNode: nat;
      while GetAvailableNodeCount() > 0
        invariant PoolsValid() && preset == old(placedKeys)
        invariant missionGraph.nodes == old(missionGraph.nodes)
        invariant Chained(missionGraph.edges, edges0, entranceNode, placed, currentNode)
        invariant |placed| + GetAvailableNodeCount() == count0
        invariant multiset(placed) + Contents() == pool0
        decreases GetAvailableNodeCount()
      {
        ghost var edges, order, placedBefore, contentsBefore := missionGraph.edges, placed, multiset(placed), Contents();
        nextNode := ConnectNextNode(currentNode);
        PlaceOne(placedBefore, contentsBefore, Contents(), nextNode);
        ChainedStep(edges, edges0, entranceNode, order, currentNode, nextNode);
        currentNode := nextNode;
      }
      assert Idle();
      assert Contents() == multiset{};
      ghost var edges := missionGraph.edges;
      nextNode := goalNode;
      missionGraph := AddUndirectedEdge(missionGraph, currentNode, nextNode, 1);
      ChainedGoal(edges, edges0, entranceNode, placed, currentNode, goalNode);
    }

    /** The state AddChallengeNodes and AddExplorationNodes leave the
        generator in: equal key and lock pools, each lock paired with a key in
        the pool, distinct lock numbers. */
    ghost predicate Prepared()
      reads this
    {
      FreshPools(missionGraph.nodes, availableKeyNodes, availableLockNodes, availableExplorationNodes)
    }

    /** The first part of GenerateMissionGraph: a fresh graph receives the
        entrance, the challenges, the explorations and the goal, in that order. */
    method AddMissionNodes()
      requires Idle()
      requires challengeAmount > 0 ==> |availableMechanics| > 0 && maxMechanicsPerChallenge >= 1
      modifies this`missionGraph, this`entranceNode, this`goalNode, this`availableKeyNodes, this`availableLockNodes,
        this`availableExplorationNodes
      ensures Prepared() && missionGraph.edges == []
      ensures MissionLayout(missionGraph.nodes, Count(challengeAmount), Count(explorationAmount),
        availableMechanics, maxMechanicsPerChallenge)
      ensures entranceNode == 0 && goalNode == |missionGraph.nodes| - 1
      ensures Contents() == multiset(Range(1, goalNode))
    {
      missionGraph := EmptyGraph;
      AddEntranceNode();
      assert entranceNode == 0 && StagedAt(0, 0);
      AddChallengeNodes();
      assert StagedAt(Count(challengeAmount), 0);
      AddExplorationNodes();
      ghost var withExplorations := missionGraph;
      assert entranceNode == 0;
      AddGoalNode();
      StagedFinal(withExplorations, availableKeyNodes, availableLockNodes, availableExplorationNodes,
        Count(challengeAmount), Count(explorationAmount), availableMechanics, maxMechanicsPerChallenge);
    }

    /** GenerateMissionGraph: a fresh graph holding the entrance, Key(t) and
        Lock(t) for each challenge, the exploration nodes and the goal, joined
        into one chain of weight-1 edges from the entrance through every other
        node exactly once to the goal. When placedKeys starts empty every Key(t)
        is chained before Lock(t); placedKeys is not cleared between runs, so
        on later runs a lock may follow a key number recorded by an earlier run. */
    method GenerateMissionGraph()
      requires Idle()
      requires challengeAmount > 0 ==> |availableMechanics| > 0 && maxMechanicsPerChallenge >= 1
      modifies this`missionGraph, this`entranceNode, this`goalNode, this`availableKeyNodes, this`availableLockNodes,
        this`availableExplorationNodes, this`placedKeys, this`placed, this`preset
      ensures Idle()
      ensures MissionLayout(missionGraph.nodes, Count(challengeAmount), Count(explorationAmount),
        availableMechanics, maxMechanicsPerChallenge)
      ensures entranceNode == 0 && goalNode == |missionGraph.nodes| - 1
      ensures multiset(placed) == multiset(Range(1, goalNode))
      ensures missionGraph.edges == Chain(Path(entranceNode, placed, goalNode))
      ensures Within(missionGraph.nodes, placed) && KeysBeforeLocks(missionGraph.nodes, placed, old(placedKeys))
      ensures placedKeys == old(placedKeys) + PlacedKeyNrs(missionGraph.nodes, placed)
    {
      AddMissionNodes();
      assert placedKeys == old(placedKeys);
      ghost var nodes, edges, pool := missionGraph.nodes, missionGraph.edges, Contents();
      ghost var entrance, goal := entranceNode, goalNode;
      ConnectAllNodes();
      Connected(nodes, edges, pool, entrance, goal, missionGraph.nodes, missionGraph.edges, placed, entranceNode, goalNode,
        Count(challengeAmount), Count(explorationAmount), availableMechanics, maxMechanicsPerChallenge);
    }
  }

  /** The graph and pools after the entrance, c challenges and e
      explorations: no edges yet, the nodes at their positions, each pool
      holding its nodes in creation order. */
  ghost predicate Staged(g: Graph, keys: seq<nat>, locks: seq<nat>, explorations: seq<nat>, c: nat, e: nat,
                         mechanics: seq<Mechanic>, maxMechanics: int)
  {
    g.edges == [] && |g.nodes| == 1 + 2 * c + e &&
    g.nodes[0] == MissionNodeData(Entrance, -1, []) &&
    (forall t :: 0 <= t < c ==>
      IsKeyNode(g.nodes[1 + 2 * t], t, mechanics, maxMechanics) && g.nodes[2 + 2 * t] == MissionNodeData(Lock, t, [])) &&
    (forall t :: 1 + 2 * c <= t < 1 + 2 * c + e ==> g.nodes[t] == MissionNodeData(Exploration, -1, [])) &&
    keys == EveryOther(1, c) && locks == EveryOther(2, c) && explorations == Range(1 + 2 * c, 1 + 2 * c + e)
  }

  /** One AddChallengeNodes iteration extends the staged layout by Key(c), Lock(c). */
  lemma StagedChallenge(g: Graph, keys: seq<nat>, locks: seq<nat>, explorations: seq<nat>, c: nat,
                        mechanics: seq<Mechanic>, maxMechanics: int, key: MissionNodeData)
    requires Staged(g, keys, locks, explorations, c, 0, mechanics, maxMechanics)
    requires IsKeyNode(key, c, mechanics, maxMechanics)
    ensures Staged(AddNode(AddNode(g, key), MissionNodeData(Lock, c, [])), keys + [|g.nodes|], locks + [|g.nodes| + 1],
      explorations, c + 1, 0, mechanics, maxMechanics)
  {
    var g' := AddNode(AddNode(g, key), MissionNodeData(Lock, c, []));
    assert g'.nodes == g.nodes + [key, MissionNodeData(Lock, c, [])];
    assert EveryOther(1, c + 1) == EveryOther(1, c) + [1 + 2 * c];
    assert EveryOther(2, c + 1) == EveryOther(2, c) + [2 + 2 * c];
  }

  /** One AddExplorationNodes iteration extends the staged layout by an exploration node. */
  lemma StagedExploration(g: Graph, keys: seq<nat>, locks: seq<nat>, explorations: seq<nat>, c: nat, e: nat,
                          mechanics: seq<Mechanic>, maxMechanics: int)
    requires Staged(g, keys, locks, explorations, c, e, mechanics, maxMechanics)
    ensures Staged(AddNode(g, MissionNodeData(Exploration, -1, [])), keys, locks, explorations + [|g.nodes|],
      c, e + 1, mechanics, maxMechanics)
  {
    assert Range(1 + 2 * c, 1 + 2 * c + e + 1) == Range(1 + 2 * c, 1 + 2 * c + e) + [1 + 2 * c + e];
  }

  /** Adding the goal to the staged layout gives MissionLayout and pools
      ready to be drained, holding the positions between entrance and goal. */
  lemma StagedFinal(g: Graph, keys: seq<nat>, locks: seq<nat>, explorations: seq<nat>, c: nat, e: nat,
                    mechanics: seq<Mechanic>, maxMechanics: int)
    requires Staged(g, keys, locks, explorations, c, e, mechanics, maxMechanics)
    ensures AddNode(g, MissionNodeData(Goal, -1, [])).edges == []
    ensures MissionLayout(AddNode(g, MissionNodeData(Goal, -1, [])).nodes, c, e, mechanics, maxMechanics)
    ensures FreshPools(AddNode(g, MissionNodeData(Goal, -1, [])).nodes, keys, locks, explorations)
    ensures multiset(keys) + multiset(locks) + multiset(explorations) == multiset(Range(1, |g.nodes|))
  {
    var nodes := AddNode(g, MissionNodeData(Goal, -1, [])).nodes;
    assert forall t :: 0 <= t < |g.nodes| ==> nodes[t] == g.nodes[t];
    FreshLayout(nodes, keys, locks, explorations, c, e, mechanics, maxMechanics);
    PoolPositions(c, e, keys, locks, explorations);
  }

  /** The pools over a MissionLayout are fresh. */
  lemma FreshLayout(nodes: seq<MissionNodeData>, keys: seq<nat>, locks: seq<nat>, explorations: seq<nat>, c: nat, e: nat,
                    mechanics: seq<Mechanic>, maxMechanics: int)
    requires MissionLayout(nodes, c, e, mechanics, maxMechanics)
    requires keys == EveryOther(1, c) && locks == EveryOther(2, c) && explorations == Range(1 + 2 * c, 1 + 2 * c + e)
    ensures FreshPools(nodes, keys, locks, explorations)
  {
    EveryOtherAt(1, c);
    EveryOtherAt(2, c);
    var lockNrs := KeyNrsOf(nodes, locks);
    var keyNrs := KeyNrsOf(nodes, keys);
    assert forall t :: 0 <= t < c ==> lockNrs[t] == t && keyNrs[t] == t;
    forall x | x in lockNrs ensures x in keyNrs {
      var t :| 0 <= t < c && lockNrs[t] == x;
      assert keyNrs[t] == x;
    }
  }

  /** The three pools GenerateMissionGraph fills hold the positions 1 .. 2c+e. */
  lemma PoolPositions(c: nat, e: nat, keys: seq<nat>, locks: seq<nat>, explorations: seq<nat>)
    requires keys == EveryOther(1, c) && locks == EveryOther(2, c) && explorations == Range(1 + 2 * c, 1 + 2 * c + e)
    ensures multiset(keys) + multiset(locks) + multiset(explorations) == multiset(Range(1, 2 * c + e + 1))
  {
    ChallengePositions(c);
    assert Range(1, 2 * c + e + 1) == Range(1, 1 + 2 * c) + Range(1 + 2 * c, 2 * c + e + 1);
  }

  /** Appending a node to a walk adds the weight-1 edge from its last node. */
  lemma ChainAppend(order: seq<nat>, n: nat)
    requires |order| >= 1
    ensures Chain(order + [n]) == Chain(order) + [Edge(order[|order| - 1], n, 1)]
  {
    var o := order + [n];
    forall i | 0 <= i < |order|
      ensures Chain(o)[i] == (Chain(order) + [Edge(order[|order| - 1], n, 1)])[i]
    {
      assert o[i] == order[i];
    }
  }

  /** The edges of the chain entrance, placed..., ending at `current`, after edges0. */
  ghost predicate Chained(edges: seq<Edge>, edges0: seq<Edge>, entrance: nat, placed: seq<nat>, current: nat) {
    edges == edges0 + Chain([entrance] + placed) && current == ([entrance] + placed)[|placed|]
  }

  /** Joining the current node to the next extends the chain by that node. */
  lemma ChainedStep(edges: seq<Edge>, edges0: seq<Edge>, entrance: nat, placed: seq<nat>, current: nat, next: nat)
    requires Chained(edges, edges0, entrance, placed, current)
    ensures Chained(edges + [Edge(current, next, 1)], edges0, entrance, placed + [next], next)
  {
    ChainAppend([entrance] + placed, next);
    assert [entrance] + placed + [next] == [entrance] + (placed + [next]);
  }

  /** Joining the last node to the goal completes the path. */
  lemma ChainedGoal(edges: seq<Edge>, edges0: seq<Edge>, entrance: nat, placed: seq<nat>, current: nat, goal: nat)
    requires Chained(edges, edges0, entrance, placed, current)
    ensures edges + [Edge(current, goal, 1)] == edges0 + Chain(Path(entrance, placed, goal))
  {
    ChainAppend([entrance] + placed, goal);
  }


  /** What ConnectAllNodes adds to the nodes AddMissionNodes laid out: the
      chain from the entrance through every pooled node to the goal. */
  lemma Connected(nodes: seq<MissionNodeData>, edges: seq<Edge>, pool: multiset<nat>, entrance: nat, goal: nat,
                  nodes': seq<MissionNodeData>, edges': seq<Edge>, placed: seq<nat>, entrance': nat, goal': nat,
                  c: nat, e: nat, mechanics: seq<Mechanic>, maxMechanics: int)
    requires edges == [] && MissionLayout(nodes, c, e, mechanics, maxMechanics)
    requires entrance == 0 && goal == |nodes| - 1 && pool == multiset(Range(1, goal))
    requires nodes' == nodes && edges' == edges + Chain(Path(entrance', placed, goal')) && multiset(placed) == pool
    requires entrance' == entrance && goal' == goal
    ensures MissionLayout(nodes', c, e, mechanics, maxMechanics)
    ensures entrance' == 0 && goal' == |nodes'| - 1
    ensures multiset(placed) == multiset(Range(1, goal'))
    ensures edges' == Chain(Path(entrance', placed, goal'))
  {
    assert edges + Chain(Path(entrance', placed, goal')) == Chain(Path(entrance', placed, goal'));
  }
}
