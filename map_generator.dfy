/** Assets/NodeMapGenerator.cs: builds the overworld map one floor at a time.
    Each node of a floor gets a successor on the next floor, at most one node
    per lane; a lane that would continue a straight line over the last
    floors is avoided when possible; crossing edges are uncrossed. The map is
    saved and loaded as, for every node, the indices of its successors. */
module MapGenerator {
  import opened Wrappers
  import opened Lists
  import opened UnityMath
  import opened MapNodes
  import opened JsonObjects
  import opened MapEncoding

  const NumFloors := 10
  const FloorWidth := 5
  const MaxNodesPerFloor := 5
  const MaxLengthOfStraightPath := 3
  /** GenerateNode's bound on draws for one node. */
  const MaxAttempts := 5

  /** The lanes of the two starting nodes: Mathf.FloorToInt(FloorWidth / 3)
      and Mathf.CeilToInt(2 * FloorWidth / 3), both over an integer
      quotient. */
  const StartY1 := FloorWidth / 3
  const StartY2 := 2 * FloorWidth / 3

  /** List.Exists(node => node.Y == y). */
  ghost predicate HasLane(floor: seq<MapNode>, y: int)
    reads floor`Y
  {
    exists n :: n in floor && n.Y == y
  }

  /** The lanes occupied on a floor. */
  ghost function LaneSet(floor: seq<MapNode>): (r: set<int>)
    reads floor`Y
  {
    set n | n in floor :: n.Y
  }

  /** The lanes occupied on each floor, as a value the node objects no longer
      affect. */
  ghost function LaneSets(floors: seq<seq<MapNode>>): (r: seq<set<int>>)
    reads AllNodes(floors)`Y
    ensures |r| == |floors|
  {
    LanesUpTo(floors, |floors|)
  }

  /** The lanes of the first k floors. */
  ghost function LanesUpTo(floors: seq<seq<MapNode>>, k: nat): (r: seq<set<int>>)
    requires k <= |floors|
    reads AllNodes(floors)`Y
    ensures |r| == k
  {
    if k == 0 then []
    else LanesUpTo(floors, k - 1) + [LaneSet(floors[k - 1])]
  }

  /** Lane y is in the lane set of floor i exactly when a node of floor i is
      on lane y. */
  lemma LaneSetsAt(floors: seq<seq<MapNode>>, i: int, y: int)
    requires 0 <= i < |floors|
    ensures y in LaneSets(floors)[i] <==> HasLane(floors[i], y)
  {
    LanesUpToAt(floors, |floors|, i, y);
  }

  lemma {:induction false} LanesUpToAt(floors: seq<seq<MapNode>>, k: nat, i: int, y: int)
    requires 0 <= i < k <= |floors|
    ensures y in LanesUpTo(floors, k)[i] <==> HasLane(floors[i], y)
    decreases k
  {
    if i < k - 1 {
      LanesUpToAt(floors, k - 1, i, y);
    }
  }

  /** A node on lane `yValue` of floor `currentFloorIndex` would continue a
      line occupying that lane on each of the `lookback` floors before it;
      `lanes[i]` holds the lanes of floor i. */
  predicate Straight(lanes: seq<set<int>>, yValue: int, currentFloorIndex: int, lookback: int)
    requires currentFloorIndex <= |lanes|
  {
    currentFloorIndex >= lookback
    && forall i :: currentFloorIndex - lookback <= i < currentFloorIndex ==> yValue in lanes[i]
  }

  /** IsStraightPath: the loop over the `lookback` floors before the current
      one, stopping at the first floor without the lane. */
  method IsStraightPath(floors: seq<seq<MapNode>>, yValue: int, currentFloorIndex: int, lookback: int)
    returns (r: bool)
    requires currentFloorIndex <= |floors|
    ensures r == Straight(LaneSets(floors), yValue, currentFloorIndex, lookback)
  {
    ghost var lanes := LaneSets(floors);
    if currentFloorIndex < lookback {
      return false;
    }
    var i := currentFloorIndex - lookback;
    while i < currentFloorIndex
      invariant currentFloorIndex - lookback <= i && 0 <= i
      invariant forall k :: currentFloorIndex - lookback <= k < i && k < currentFloorIndex ==> yValue in lanes[k]
      invariant lanes == LaneSets(floors)
    {
      var found := exists n :: n in floors[i] && n.Y == yValue;
      if !found {
        LaneSetsAt(floors, i, yValue);
        return false;
      }
      LaneSetsAt(floors, i, yValue);
      i := i + 1;
    }
    return true;
  }

  /** The lane tried for a node whose base is on lane `baseY` when the
      stream's k-th call is the draw: the base lane moved by
      Random.Range(-1, 2) and clamped to the floor. */
  function Candidate(baseY: int, draw: nat -> nat, k: nat): (y: int)
    ensures 0 <= y < FloorWidth
    ensures 0 <= baseY < FloorWidth ==> baseY - 1 <= y <= baseY + 1
  {
    Clamp(baseY + RangeAt(draw, k, -1, 2), 0, FloorWidth - 1)
  }

  /** GenerateNode's attempt `u` (counted from the stream position `c0`)
      draws a straight lane. */
  predicate StraightAttempt(lanes: seq<set<int>>, baseY: int, draw: nat -> nat, c0: nat,
                            floorIndex: int, u: nat)
    requires floorIndex <= |lanes|
  {
    Straight(lanes, Candidate(baseY, draw, c0 + u), floorIndex, MaxLengthOfStraightPath)
  }

  /** GenerateNode's do-while, run from the stream position `c0`, makes
      `used` draws and accepts the last one exactly when `found`: with the
      check skipped the first draw is accepted; otherwise every draw before
      the last was straight, the last is accepted when it is not straight, and
      a rejected last draw is the MaxAttempts-th. */
  ghost predicate Drawn(lanes: seq<set<int>>, baseY: int, draw: nat -> nat, c0: nat, floorIndex: int,
                        ignore: bool, used: int, found: bool)
    requires floorIndex <= |lanes|
  {
    1 <= used <= MaxAttempts
    && (ignore ==> found && used == 1)
    && (!ignore ==>
          (forall u :: 0 <= u < used - 1 ==> StraightAttempt(lanes, baseY, draw, c0, floorIndex, u))
          && (found <==> !StraightAttempt(lanes, baseY, draw, c0, floorIndex, used - 1))
          && (!found ==> used == MaxAttempts))
  }

  /** The draws determine the outcome: one number of draws and one verdict
      satisfy Drawn. */
  lemma DrawnUnique(lanes: seq<set<int>>, baseY: int, draw: nat -> nat, c0: nat, floorIndex: int,
                    ignore: bool, used: int, found: bool, used': int, found': bool)
    requires floorIndex <= |lanes|
    requires Drawn(lanes, baseY, draw, c0, floorIndex, ignore, used, found)
    requires Drawn(lanes, baseY, draw, c0, floorIndex, ignore, used', found')
    ensures used == used' && found == found'
  {
  }

  /** The bookkeeping of one floor under construction: `generated[y]` is
      the floor's node on lane y, if any, and every node of the floor is
      recorded there under its own lane. */
  ghost predicate Slots(generated: seq<MapNode?>, floor: seq<MapNode>, x: int)
    reads floor`Y
  {
    |generated| == MaxNodesPerFloor
    && (forall y :: 0 <= y < |generated| && generated[y] != null ==> generated[y] in floor && generated[y].Y == y)
    && (forall i :: 0 <= i < |floor| ==>
          floor[i].X == x && 0 <= floor[i].Y < |generated| && generated[floor[i].Y] == floor[i])
    && NoDup(floor)
  }

  /** Recording a new node on a free lane keeps the bookkeeping. */
  lemma SlotsAdd(generated: seq<MapNode?>, floor: seq<MapNode>, x: int, n: MapNode)
    requires Slots(generated, floor, x)
    requires n.X == x && 0 <= n.Y < |generated| && generated[n.Y] == null
    ensures Slots(generated[n.Y := n], floor + [n], x)
  {
    var g, f := generated[n.Y := n], floor + [n];
    assert n !in floor;
    forall i, j | 0 <= i < j < |f| ensures f[i] != f[j] {
    }
  }

  /** All nodes of a floor are on floor x, on lanes of the floor, and no two
      share a lane. */
  ghost predicate Lanes(floor: seq<MapNode>, x: int)
    reads floor`Y
  {
    (forall i :: 0 <= i < |floor| ==> floor[i].X == x && 0 <= floor[i].Y < FloorWidth)
    && forall i, j :: 0 <= i < j < |floor| ==> floor[i].Y != floor[j].Y
  }

  lemma SlotsLanes(generated: seq<MapNode?>, floor: seq<MapNode>, x: int)
    requires Slots(generated, floor, x)
    ensures Lanes(floor, x)
  {
  }

  /** A floor recorded in the bookkeeping has at most one node per lane,
      so at most MaxNodesPerFloor nodes. */
  lemma SlotsBound(generated: seq<MapNode?>, floor: seq<MapNode>, x: int)
    requires Slots(generated, floor, x)
    ensures |floor| <= MaxNodesPerFloor
  {
    forall n | n in floor ensures n in generated {
      var i :| 0 <= i < |floor| && floor[i] == n;
      assert generated[n.Y] == n;
    }
    NoDupBound(floor, generated);
  }

  /** The node on lane `y` of the new floor, reused or new, is a successor
      of the base node. */
  ghost predicate Placed(baseNode: MapNode, oldNext: seq<MapNode>, oldGenerated: seq<MapNode?>, generated: seq<MapNode?>,
                         oldFloor: seq<MapNode>, floor: seq<MapNode>, y: int)
    reads baseNode`NextNodes, (set n | n in generated && n != null)`Y
    reads (set n | n in generated && n != null)`NextNodes, (set n | n in generated && n != null)`PreviousNodes
  {
    0 <= y < |generated| == |oldGenerated| &&
    var n := generated[y];
    n != null && n.Y == y
    && baseNode.NextNodes == (if n in oldNext then oldNext else oldNext + [n])
    && (oldGenerated[y] != null ==> generated == oldGenerated && floor == oldFloor)
    && (oldGenerated[y] == null ==>
          floor == oldFloor + [n] && n.NextNodes == [] && n.PreviousNodes == [baseNode]
          && generated == oldGenerated[y := n])
  }

  /** NodeOnLane's result on lane y: the node recorded there, or a new node
      without edges now recorded there and added to the floor. */
  ghost predicate OnLane(oldGenerated: seq<MapNode?>, generated: seq<MapNode?>, oldFloor: seq<MapNode>,
                         floor: seq<MapNode>, n: MapNode, y: int)
    reads n`Y, n`NextNodes, n`PreviousNodes
  {
    0 <= y < |generated| == |oldGenerated| && generated[y] == n && n.Y == y
    && (oldGenerated[y] != null ==> n == oldGenerated[y] && generated == oldGenerated && floor == oldFloor)
    && (oldGenerated[y] == null ==>
          floor == oldFloor + [n] && n.NextNodes == [] && n.PreviousNodes == []
          && generated == oldGenerated[y := n])
  }

  /** Every successor of a node of P is on C. */
  ghost predicate SuccessorsOn(P: seq<MapNode>, C: seq<MapNode>)
    reads P`NextNodes
  {
    forall m, n :: m in P && n in m.NextNodes ==> n in C
  }

  /** Every node of P has a successor. */
  ghost predicate Started(P: seq<MapNode>)
    reads P`NextNodes
  {
    forall m :: m in P ==> |m.NextNodes| > 0
  }

  /** No node of C has a successor yet. */
  ghost predicate Leaves(C: seq<MapNode>)
    reads C`NextNodes
  {
    forall n :: n in C ==> n.NextNodes == []
  }

  /** The state of a floor under construction as its base floor sees it:
      every successor of a node of P is on C, every node of Q has a
      successor, and no node of C has one yet. */
  ghost predicate Building(P: seq<MapNode>, Q: seq<MapNode>, C: seq<MapNode>)
    reads P`NextNodes, Q`NextNodes, C`NextNodes
  {
    SuccessorsOn(P, C) && Started(Q) && Leaves(C)
  }

  /** Every node of floor f is at X == f. */
  predicate Layered(floors: seq<seq<MapNode>>) {
    forall f, n: MapNode :: 0 <= f < |floors| && n in floors[f] ==> n.X == f
  }

  /** No two nodes of a floor share a lane: what DebugValidateMaps asserts. */
  ghost predicate DistinctLanes(floor: seq<MapNode>)
    reads floor`Y
  {
    forall i, j :: 0 <= i < j < |floor| ==> floor[i].Y != floor[j].Y
  }

  /** Every floor is on its own X, on lanes of the floor, one node per lane. */
  ghost predicate LaneUnique(floors: seq<seq<MapNode>>)
    reads AllNodes(floors)`Y
  {
    forall f :: 0 <= f < |floors| ==> Lanes(floors[f], f)
  }

  /** Edges lead from each floor to the next: every node off the last floor
      has a successor, every successor is on the next floor, and nodes of
      the last floor have none. */
  ghost predicate Paths(floors: seq<seq<MapNode>>)
    reads AllNodes(floors)`NextNodes
  {
    |floors| > 0
    && (forall f :: 0 <= f < |floors| - 1 ==> Started(floors[f]) && SuccessorsOn(floors[f], floors[f + 1]))
    && Leaves(floors[|floors| - 1])
  }

  /** The shape GenerateMap builds: floors on their own X, one node per
      lane, a bounded non-empty floor after the first, edges from every
      floor to the next and edge lists that mirror each other. */
  ghost predicate Generated(floors: seq<seq<MapNode>>)
    reads AllNodes(floors)`Y, AllNodes(floors)`NextNodes, AllNodes(floors)`PreviousNodes
  {
    GeneratedOn(floors, AllNodes(floors))
  }

  /** Generated, for a map whose nodes are S. */
  ghost predicate GeneratedOn(floors: seq<seq<MapNode>>, S: set<MapNode>)
    reads S`Y, S`NextNodes, S`PreviousNodes
  {
    S == AllNodes(floors) && Layered(floors) && LaneUnique(floors) && Paths(floors) && Linked(AllNodes(floors))
    && |floors[0]| == 2 && floors[0][0].Y == StartY1 && floors[0][1].Y == StartY2
    && (forall f :: 0 <= f < |floors| ==> |floors[f]| > 0)
    && forall f :: 0 < f < |floors| ==> |floors[f]| <= MaxNodesPerFloor
  }

  /** The two starting nodes, on lanes StartY1 and StartY2 and without
      edges, form a generated map of one floor. */
  lemma StartGenerated(a: MapNode, b: MapNode)
    requires a.X == 0 && b.X == 0 && a.Y == StartY1 && b.Y == StartY2
    requires a.NextNodes == [] && a.PreviousNodes == [] && b.NextNodes == [] && b.PreviousNodes == []
    ensures GeneratedOn([[a, b]], {a, b})
  {
    var floors := [[a, b]];
    assert AllNodes(floors) == {a, b};
    LinkedAddIsolated({}, {a, b});
    assert Lanes(floors[0], 0);
    assert Layered(floors);
  }

  /** A new top floor on its own X, one node per lane, bounded and
      non-empty, reached from every node of the floor below and without
      successors of its own, extends a generated map. */
  lemma GeneratedAppend(floors: seq<seq<MapNode>>, C: seq<MapNode>)
    requires |floors| > 0 && Layered(floors) && LaneUnique(floors)
    requires forall f :: 0 <= f < |floors| - 1 ==> Started(floors[f]) && SuccessorsOn(floors[f], floors[f + 1])
    requires (forall f :: 0 <= f < |floors| ==> |floors[f]| > 0)
    requires forall f :: 0 < f < |floors| ==> |floors[f]| <= MaxNodesPerFloor
    requires Started(floors[|floors| - 1]) && SuccessorsOn(floors[|floors| - 1], C)
    requires 0 < |C| <= MaxNodesPerFloor && Lanes(C, |floors|) && Leaves(C)
    requires Linked(AllNodes(floors) + NodesOf(C))
    requires |floors[0]| == 2 && floors[0][0].Y == StartY1 && floors[0][1].Y == StartY2
    ensures GeneratedOn(floors + [C], AllNodes(floors) + NodesOf(C))
  {
    var F := floors + [C];
    assert F[0] == floors[0];
    AllNodesAppend(floors, C);
    assert forall f :: 0 <= f < |floors| ==> F[f] == floors[f];
    assert F[|floors|] == C;
    assert Layered(F) by {
      forall f, n: MapNode | 0 <= f < |F| && n in F[f] ensures n.X == f {
        if f == |floors| {
          var i :| 0 <= i < |C| && C[i] == n;
        }
      }
    }
    assert LaneUnique(F) by {
      forall f | 0 <= f < |F| ensures Lanes(F[f], f) {
        if f < |floors| {
          assert Lanes(floors[f], f);
        }
      }
    }
    assert Paths(F) by {
      forall f | 0 <= f < |F| - 1 ensures Started(F[f]) && SuccessorsOn(F[f], F[f + 1]) {
        if f < |floors| - 1 {
          assert F[f + 1] == floors[f + 1];
        }
      }
    }
  }

  /** GeneratedAppend across the building of the new top floor C: the
      lanes of the map are those it had before, and below the top floor
      the successors are those N recorded before. */
  twostate lemma GrownMap(floors: seq<seq<MapNode>>, new C: seq<MapNode>)
    requires |floors| > 0 && Layered(floors) && old(LaneUnique(floors))
    requires old(|floors[0]| == 2 && floors[0][0].Y == StartY1 && floors[0][1].Y == StartY2)
    requires (forall f :: 0 <= f < |floors| ==> |floors[f]| > 0)
    requires forall f :: 0 < f < |floors| ==> |floors[f]| <= MaxNodesPerFloor
    requires forall n :: n in AllNodes(floors) ==> n.Y == old(n.Y)
    requires old(forall f :: 0 <= f < |floors| - 1 ==> Started(floors[f]) && SuccessorsOn(floors[f], floors[f + 1]))
    requires forall n :: n in AllNodes(floors) && n !in NodesOf(floors[|floors| - 1]) ==> n.NextNodes == old(n.NextNodes)
    requires Started(floors[|floors| - 1]) && SuccessorsOn(floors[|floors| - 1], C)
    requires 0 < |C| <= MaxNodesPerFloor && Lanes(C, |floors|) && Leaves(C)
    requires Linked(AllNodes(floors) + NodesOf(C))
    ensures GeneratedOn(floors + [C], AllNodes(floors) + NodesOf(C))
  {
    LanesKept(floors);
    PathsBelowKept(floors);
    GeneratedAppend(floors, C);
  }

  /** The lanes of a map whose nodes kept their lanes are unique still. */
  twostate lemma LanesKept(floors: seq<seq<MapNode>>)
    requires old(LaneUnique(floors))
    requires forall n :: n in AllNodes(floors) ==> n.Y == old(n.Y)
    ensures LaneUnique(floors)
  {
    forall f | 0 <= f < |floors| ensures Lanes(floors[f], f) {
      FloorInAll(floors, f);
      assert old(Lanes(floors[f], f));
    }
  }

  /** The lane sets of a map stay while none of its nodes changes lane. */
  twostate lemma LaneSetsKept(floors: seq<seq<MapNode>>)
    requires forall n :: n in AllNodes(floors) ==> n.Y == old(n.Y)
    ensures LaneSets(floors) == old(LaneSets(floors))
  {
  }

  /** The floors below the top one lead to the next as before when their
      nodes kept their successors. */
  twostate lemma PathsBelowKept(floors: seq<seq<MapNode>>)
    requires |floors| > 0 && Layered(floors)
    requires old(forall f :: 0 <= f < |floors| - 1 ==> Started(floors[f]) && SuccessorsOn(floors[f], floors[f + 1]))
    requires forall n :: n in AllNodes(floors) && n !in NodesOf(floors[|floors| - 1]) ==> n.NextNodes == old(n.NextNodes)
    ensures forall f :: 0 <= f < |floors| - 1 ==> Started(floors[f]) && SuccessorsOn(floors[f], floors[f + 1])
  {
    forall f | 0 <= f < |floors| - 1 ensures Started(floors[f]) && SuccessorsOn(floors[f], floors[f + 1]) {
      FloorInAll(floors, f);
      forall n | n in floors[f] ensures n.NextNodes == old(n.NextNodes) {
        assert n.X == f;
      }
      assert old(Started(floors[f]) && SuccessorsOn(floors[f], floors[f + 1]));
    }
  }

  /** Every floor's nodes are among the map's nodes. */
  lemma FloorInAll(floors: seq<seq<MapNode>>, f: int)
    requires 0 <= f < |floors|
    ensures NodesOf(floors[f]) <= AllNodes(floors)
  {
  }

  /** The top floor of a generated map is on its own X, has no successors
      yet, and is part of the map. */
  lemma TopFloor(floors: seq<seq<MapNode>>, S: set<MapNode>)
    requires GeneratedOn(floors, S)
    ensures forall n :: n in floors[|floors| - 1] ==> n.X == |floors| - 1 && n.NextNodes == []
    ensures NodesOf(floors[|floors| - 1]) <= S
  {
    FloorInAll(floors, |floors| - 1);
  }

  /** A floor added on top adds its nodes. */
  lemma AllNodesAppend(floors: seq<seq<MapNode>>, floor: seq<MapNode>)
    ensures AllNodes(floors + [floor]) == AllNodes(floors) + NodesOf(floor)
  {
    var F := floors + [floor];
    forall n | n in AllNodes(F) ensures n in AllNodes(floors) + NodesOf(floor) {
      var f :| 0 <= f < |F| && n in F[f];
      if f < |floors| {
        assert n in floors[f];
      }
    }
    forall n | n in AllNodes(floors) ensures n in AllNodes(F) {
      var f :| 0 <= f < |floors| && n in floors[f];
      assert F[f] == floors[f];
    }
    forall n | n in NodesOf(floor) ensures n in AllNodes(F) {
      assert F[|floors|] == floor;
    }
  }

  /** An entry of CorrectPaths' swaps list: nodeA's edge to nextA and
      nodeB's edge to nextB are to become nodeA -> nextB and nodeB -> nextA. */
  datatype Swap = Swap(nodeA: MapNode, nodeB: MapNode, nextA: MapNode, nextB: MapNode)

  /** The edges nodeA -> nextA and nodeB -> nextB cross: the base nodes are
      distinct and at most one lane apart, and each edge ends on the lane of
      the other base node. */
  ghost predicate Crosses(t: Swap)
    reads {t.nodeA, t.nodeB}`NextNodes, {t.nodeA, t.nodeB, t.nextA, t.nextB}`Y
  {
    t.nodeA != t.nodeB && Abs(t.nodeA.Y - t.nodeB.Y) <= 1
    && t.nextA in t.nodeA.NextNodes && t.nextB in t.nodeB.NextNodes
    && t.nextA.Y == t.nodeB.Y && t.nextB.Y == t.nodeA.Y
  }

  /** A swap between two distinct nodes of P and two nodes of C. */
  predicate Within(t: Swap, P: seq<MapNode>, C: seq<MapNode>) {
    t.nodeA in P && t.nodeB in P && t.nodeA != t.nodeB && t.nextA in C && t.nextB in C
  }

  // CorrectPaths on snapshots: N holds the successor lists (NextMap) of the
  // base floor and L the lanes (LaneMap) of the base floor and of the floor
  // after it, so the facts below survive the rewiring of edges.

  /** The lanes of a set of nodes, as a value. */
  ghost function LaneMap(nodes: set<MapNode>): (L: map<MapNode, int>)
    reads nodes`Y
    ensures L.Keys == nodes && forall n :: n in nodes ==> L[n] == n.Y
  {
    map n | n in nodes :: n.Y
  }

  /** Crosses, over the snapshot N of the base nodes' successor lists and
      the snapshot L of the lanes. */
  predicate CrossesIn(N: map<MapNode, seq<MapNode>>, L: map<MapNode, int>, t: Swap) {
    t.nodeA in N && t.nodeB in N && t.nodeA != t.nodeB
    && t.nodeA in L && t.nodeB in L && t.nextA in L && t.nextB in L
    && Abs(L[t.nodeA] - L[t.nodeB]) <= 1
    && t.nextA in N[t.nodeA] && t.nextB in N[t.nodeB]
    && L[t.nextA] == L[t.nodeB] && L[t.nextB] == L[t.nodeA]
  }

  /** Disconnect(from) followed by Connect(to), on a successor list. */
  function Redirected(l: seq<MapNode>, from: MapNode, to: MapNode): seq<MapNode> {
    var r := RemoveFirst(l, from);
    if to in r then r else r + [to]
  }

  /** On a list without duplicates the redirect keeps it so: it drops `from`
      and holds `to` besides the other elements. */
  lemma RedirectedFacts(l: seq<MapNode>, from: MapNode, to: MapNode)
    requires NoDup(l)
    ensures NoDup(Redirected(l, from, to))
    ensures forall y :: y in Redirected(l, from, to) <==> (y in l && y != from) || y == to
  {
    RemoveFirstNoDup(l, from);
    if to !in RemoveFirst(l, from) {
      AppendNoDup(RemoveFirst(l, from), to);
    }
  }

  /** One entry of the swaps list applied to the snapshot: nodeA's list is
      redirected from nextA to nextB, then nodeB's from nextB to nextA. */
  function Swapped(N: map<MapNode, seq<MapNode>>, t: Swap): (r: map<MapNode, seq<MapNode>>)
    requires t.nodeA in N && t.nodeB in N
    ensures r.Keys == N.Keys
  {
    var N' := N[t.nodeA := Redirected(N[t.nodeA], t.nextA, t.nextB)];
    N'[t.nodeB := Redirected(N'[t.nodeB], t.nextB, t.nextA)]
  }

  /** The swaps list applied in order, as CorrectPaths' last foreach does. */
  function SwappedAll(N: map<MapNode, seq<MapNode>>, swaps: seq<Swap>): (r: map<MapNode, seq<MapNode>>)
    requires forall t :: t in swaps ==> t.nodeA in N && t.nodeB in N
    ensures r.Keys == N.Keys
    decreases |swaps|
  {
    if swaps == [] then N
    else
      var front := swaps[..|swaps| - 1];
      assert forall t :: t in front ==> t in swaps;
      Swapped(SwappedAll(N, front), swaps[|swaps| - 1])
  }

  /** SwappedAll on one more entry of the swaps list. */
  lemma SwappedAllStep(N: map<MapNode, seq<MapNode>>, swaps: seq<Swap>, k: nat)
    requires k < |swaps| && forall t :: t in swaps ==> t.nodeA in N && t.nodeB in N
    ensures SwappedAll(N, swaps[..k + 1]) == Swapped(SwappedAll(N, swaps[..k]), swaps[k])
  {
    assert swaps[..k + 1][..k] == swaps[..k];
  }

  /** Distinct base nodes of the snapshot are on distinct lanes, and every
      base node and successor has a lane. */
  predicate OwnLanes(N: map<MapNode, seq<MapNode>>, L: map<MapNode, int>) {
    (forall a :: a in N ==> a in L)
    && (forall a, x :: a in N && x in N[a] ==> x in L)
    && (forall a, b :: a in N && b in N && a != b ==> L[a] != L[b])
  }

  /** What applying crossing pairs of N keeps, given the lists `r` after the
      entries `done`: the lists stay free of duplicates and within L; every
      edge that leaves its lane was already in N (a swap only adds edges
      that stay on their lane); and the crossing edge nodeA -> nextA of
      every entry applied so far is gone. */
  predicate SwapsKept(N: map<MapNode, seq<MapNode>>, L: map<MapNode, int>, r: map<MapNode, seq<MapNode>>,
                      done: seq<Swap>)
    requires OwnLanes(N, L)
  {
    r.Keys == N.Keys
    && (forall a :: a in r ==> NoDup(r[a]))
    && (forall a, x :: a in r && x in r[a] ==> x in L)
    && (forall a, x :: a in r && x in r[a] && L[x] != L[a] ==> x in N[a])
    && (forall t :: t in done ==> t.nodeA in r && t.nextA !in r[t.nodeA])
  }

  /** Applying one more crossing pair of N keeps SwapsKept: the edges it adds
      stay on their lanes, so none of them is an edge an earlier entry
      removed, and its own nodeA -> nextA is removed. */
  lemma SwapKeeps(N: map<MapNode, seq<MapNode>>, L: map<MapNode, int>, r: map<MapNode, seq<MapNode>>,
                  done: seq<Swap>, u: Swap)
    requires OwnLanes(N, L) && CrossesIn(N, L, u) && (forall t :: t in done ==> CrossesIn(N, L, t))
    requires SwapsKept(N, L, r, done)
    ensures SwapsKept(N, L, Swapped(r, u), done + [u])
  {
    var la := Redirected(r[u.nodeA], u.nextA, u.nextB);
    RedirectedFacts(r[u.nodeA], u.nextA, u.nextB);
    var r1 := r[u.nodeA := la];
    var lb := Redirected(r1[u.nodeB], u.nextB, u.nextA);
    RedirectedFacts(r1[u.nodeB], u.nextB, u.nextA);
    var r2 := r1[u.nodeB := lb];
    assert r2 == Swapped(r, u);
    assert forall t :: t in done + [u] <==> t in done || t == u;
    forall t | t in done
      ensures t.nextA !in r2[t.nodeA]
    {
      assert L[t.nextA] != L[t.nodeA];
    }
  }

  /** SwapsKept holds after each prefix of a list of crossing pairs of N. */
  lemma {:induction false} SwapsKeep(N: map<MapNode, seq<MapNode>>, L: map<MapNode, int>, swaps: seq<Swap>, k: nat)
    requires k <= |swaps| && OwnLanes(N, L) && (forall a :: a in N ==> NoDup(N[a]))
    requires forall t :: t in swaps ==> t.nodeA in N && t.nodeB in N && CrossesIn(N, L, t)
    ensures SwapsKept(N, L, SwappedAll(N, swaps[..k]), swaps[..k])
    decreases k
  {
    if k > 0 {
      SwapsKeep(N, L, swaps, k - 1);
      assert swaps[..k] == swaps[..k - 1] + [swaps[k - 1]];
      assert swaps[..k][..k - 1] == swaps[..k - 1];
      SwapKeeps(N, L, SwappedAll(N, swaps[..k - 1]), swaps[..k - 1], swaps[k - 1]);
    }
  }

  /** CorrectPaths leaves no crossing: when the swaps list holds exactly the
      crossing pairs of N (each of them twice, once from either end) and the
      base nodes have distinct lanes, the lists after all swaps have no
      crossing pair. */
  lemma Uncrossed(N: map<MapNode, seq<MapNode>>, L: map<MapNode, int>, swaps: seq<Swap>)
    requires OwnLanes(N, L) && (forall a :: a in N ==> NoDup(N[a]))
    requires forall t :: t in swaps ==> t.nodeA in N && t.nodeB in N
    requires forall t :: t in swaps <==> CrossesIn(N, L, t)
    ensures forall t :: !CrossesIn(SwappedAll(N, swaps), L, t)
  {
    SwapsKeep(N, L, swaps, |swaps|);
    assert swaps[..|swaps|] == swaps;
  }

  /** Over the snapshots of the floor's successor lists and of the lanes of
      the floor and the one after it, Crosses and CrossesIn agree on pairs
      of base nodes of the floor, and no other pair is crossing in the
      snapshot. */
  lemma CrossesSnapshot(P: seq<MapNode>, C: seq<MapNode>, N: map<MapNode, seq<MapNode>>, L: map<MapNode, int>,
                        swaps: seq<Swap>)
    requires N == NextMap(NodesOf(P)) && L == LaneMap(NodesOf(P) + NodesOf(C)) && SuccessorsOn(P, C)
    requires forall t :: t in swaps <==> t.nodeA in P && t.nodeB in P && Crosses(t)
    ensures forall t :: t in swaps <==> CrossesIn(N, L, t)
    ensures forall t :: t in swaps ==> t.nodeA in N && t.nodeB in N
  {
    forall t: Swap | t.nodeA in P && t.nodeB in P && Crosses(t)
      ensures CrossesIn(N, L, t)
    {
      assert t.nextA in C && t.nextB in C;
    }
  }

  /** A floor whose nodes have distinct lanes, and whose successors are on
      C, gives snapshots with OwnLanes; when linked, its lists have no
      duplicates. */
  lemma OwnLanesOf(P: seq<MapNode>, C: seq<MapNode>, N: map<MapNode, seq<MapNode>>, L: map<MapNode, int>,
                   S: set<MapNode>)
    requires N == NextMap(NodesOf(P)) && L == LaneMap(NodesOf(P) + NodesOf(C)) && SuccessorsOn(P, C)
    requires Linked(S) && NodesOf(P) <= S
    ensures DistinctLanes(P) ==> OwnLanes(N, L)
    ensures forall a :: a in N ==> NoDup(N[a])
  {
    forall a, b | DistinctLanes(P) && a in N && b in N && a != b
      ensures L[a] != L[b]
    {
      var i, j :| 0 <= i < |P| && 0 <= j < |P| && P[i] == a && P[j] == b;
      assert i != j;
      if i < j { assert P[i].Y != P[j].Y; } else { assert P[j].Y != P[i].Y; }
    }
  }

  /** What DebugValidateMaps checks holds on every generated map: no two
      nodes of a floor share a lane. */
  lemma GeneratedLanesDistinct(floors: seq<seq<MapNode>>)
    requires Generated(floors)
    ensures forall f :: 0 <= f < |floors| ==> DistinctLanes(floors[f])
  {
    forall f | 0 <= f < |floors| ensures DistinctLanes(floors[f]) {
      assert Lanes(floors[f], f);
    }
  }

  /** The pair loop of DebugValidateMaps over one floor (Assert.AreNotEqual
      on the lanes of every two nodes); false at the first pair that
      shares a lane. */
  method CheckFloor(floor: seq<MapNode>) returns (ok: bool)
    ensures ok <==> DistinctLanes(floor)
  {
    for i := 0 to |floor|
      invariant forall a, b :: 0 <= a < i && a < b < |floor| ==> floor[a].Y != floor[b].Y
    {
      for j := i + 1 to |floor|
        invariant forall a, b :: 0 <= a < i && a < b < |floor| ==> floor[a].Y != floor[b].Y
        invariant forall b :: i < b < j ==> floor[i].Y != floor[b].Y
      {
        if floor[i].Y == floor[j].Y {
          return false;
        }
      }
    }
    return true;
  }

  /** The floor loop of DebugValidateMaps: true when no floor has two nodes
      on one lane. */
  method CheckFloors(floors: seq<seq<MapNode>>) returns (ok: bool)
    ensures ok <==> forall f :: 0 <= f < |floors| ==> DistinctLanes(floors[f])
  {
    for f := 0 to |floors|
      invariant forall g :: 0 <= g < f ==> DistinctLanes(floors[g])
    {
      var floorOk := CheckFloor(floors[f]);
      if !floorOk {
        return false;
      }
    }
    return true;
  }

  /** Some node of the last floor has a successor: where
      DebugSaveMapToFile reaches past the last floor. */
  ghost predicate TopHasSuccessors(floors: seq<seq<MapNode>>)
    reads AllNodes(floors)`NextNodes
  {
    exists i, j :: i == |floors| - 1 && 0 <= i && 0 <= j < |floors[i]| && floors[i][j].NextNodes != []
  }

  /** A generated map is ready to be saved: no node twice, every successor
      list duplicate-free and on the next floor, none on the last floor. */
  lemma GeneratedSaveReady(floors: seq<seq<MapNode>>)
    requires Generated(floors)
    ensures SaveReady(floors) && !TopHasSuccessors(floors)
  {
    forall f | 0 <= f < |floors| ensures NoDup(floors[f]) {
      assert Lanes(floors[f], f);
    }
    forall f, g | 0 <= f < g < |floors| ensures NodesOf(floors[f]) !! NodesOf(floors[g]) {
      forall n | n in floors[f] ensures n !in floors[g] {
        assert n.X == f;
      }
    }
    forall i, j | 0 <= i < |floors| - 1 && 0 <= j < |floors[i]|
      ensures NoDup(floors[i][j].NextNodes) && AllIn(floors[i][j].NextNodes, floors[i + 1])
    {
      assert floors[i][j] in floors[i];
      assert SuccessorsOn(floors[i], floors[i + 1]);
    }
    forall i, j | i == |floors| - 1 && 0 <= i && 0 <= j < |floors[i]| ensures floors[i][j].NextNodes == [] {
      assert floors[i][j] in floors[i];
    }
  }

  /** What GetMapData returns for a generated map: every successor is on
      the next floor, so the own-floor lookup records no index at all, and
      the data differs from the next-floor encoding as soon as there are
      two floors. */
  lemma OwnFloorIndicesEmpty(floors: seq<seq<MapNode>>)
    requires Generated(floors)
    ensures ValidIndices(OwnFloorDataOf(floors))
    ensures forall i, j :: 0 <= i < |floors| && 0 <= j < |floors[i]| ==>
              Records(OwnFloorDataOf(floors), i)[j].NextNodeIndices == []
    ensures |floors| > 1 ==> OwnFloorDataOf(floors) != MapDataOf(floors)
  {
    var d := OwnFloorDataOf(floors);
    forall i, j | 0 <= i < |floors| && 0 <= j < |floors[i]| ensures Records(d, i)[j].NextNodeIndices == [] {
      OwnFloorRecord(floors, i, j);
    }
    EmptyIndicesValid(d);
    if |floors| > 1 {
      FirstRecordStarted(floors);
    }
  }

  /** The first node's record in the next-floor encoding is not empty. */
  lemma FirstRecordStarted(floors: seq<seq<MapNode>>)
    requires Generated(floors) && |floors| > 1
    ensures |Records(MapDataOf(floors), 0)[0].NextNodeIndices| > 0
  {
    var n := floors[0][0];
    assert n in floors[0] && Started(floors[0]) && SuccessorsOn(floors[0], floors[1]);
    assert AllIn(n.NextNodes, floors[1]);
    IndicesInAll(n.NextNodes, floors[1]);
    assert Records(MapDataOf(floors), 0)[0] == NodeDataOf(n, NextFloors(floors)[0]);
  }

  /** OwnFloorIndicesEmpty for one node. */
  lemma OwnFloorRecord(floors: seq<seq<MapNode>>, i: int, j: int)
    requires Generated(floors) && 0 <= i < |floors| && 0 <= j < |floors[i]|
    ensures Records(OwnFloorDataOf(floors), i)[j].NextNodeIndices == []
  {
    var n := floors[i][j];
    assert n in floors[i];
    assert Records(OwnFloorDataOf(floors), i)[j] == NodeDataOf(n, floors[i]);
    if i < |floors| - 1 {
      assert SuccessorsOn(floors[i], floors[i + 1]);
      forall t | 0 <= t < |n.NextNodes| ensures n.NextNodes[t] !in floors[i] {
        assert n.NextNodes[t] in floors[i + 1];
      }
      IndicesInNone(n.NextNodes, floors[i]);
    }
  }

  class NodeMapGenerator {
    var Map: seq<seq<MapNode>>
    /** Whether Map has been built: the field is null before that. */
    var HasMap: bool
    /** The floor the player stands on, -1 before the first move; used by
        NodeButton.cs, although NodeMapGenerator.cs declares no such field. */
    var CurrentFloor: int
    const rng: RandomSource

    constructor (rng: RandomSource)
      ensures this.rng == rng && Map == [] && !HasMap && CurrentFloor == -1
    {
      this.rng := rng;
      Map := [];
      HasMap := false;
      CurrentFloor := -1;
    }

    /** The do-while of GenerateNode: draws lanes next to the base node's
        until one is accepted or MaxAttempts draws are used up. `lanes` are
        the lanes of the floors built so far. */
    method DrawLane(baseNode: MapNode, floorIndex: int, ignoreStraightPathCheck: bool, ghost lanes: seq<set<int>>)
      returns (found: bool, newY: int)
      requires floorIndex <= |Map| && lanes == LaneSets(Map)
      modifies rng`Calls
      ensures Drawn(lanes, old(baseNode.Y), rng.Draw, old(rng.Calls), floorIndex, ignoreStraightPathCheck,
                    rng.Calls - old(rng.Calls), found)
      ensures found ==> newY == Candidate(old(baseNode.Y), rng.Draw, rng.Calls - 1)
    {
      var attempts := 0;
      ghost var c0, draw, baseY := rng.Calls, rng.Draw, baseNode.Y;
      while true
        invariant 0 <= attempts <= MaxAttempts && rng.Calls == c0 + attempts
        invariant attempts > 0 ==> !ignoreStraightPathCheck
        invariant forall u :: 0 <= u < attempts ==> StraightAttempt(lanes, baseY, draw, c0, floorIndex, u)
        invariant lanes == LaneSets(Map)
        decreases MaxAttempts - attempts
      {
        attempts := attempts + 1;
        if attempts > MaxAttempts {
          return false, 0;
        }
        var straight;
        newY, straight := Attempt(baseNode, floorIndex, lanes);
        assert straight == StraightAttempt(lanes, baseY, draw, c0, floorIndex, attempts - 1);
        if ignoreStraightPathCheck || !straight {
          return true, newY;
        }
      }
    }

    /** One pass of the do-while's body and its condition. */
    method Attempt(baseNode: MapNode, floorIndex: int, ghost lanes: seq<set<int>>) returns (newY: int, straight: bool)
      requires floorIndex <= |Map| && lanes == LaneSets(Map)
      modifies rng`Calls
      ensures rng.Calls == old(rng.Calls) + 1 && lanes == LaneSets(Map)
      ensures newY == Candidate(baseNode.Y, rng.Draw, old(rng.Calls))
      ensures straight == Straight(lanes, newY, floorIndex, MaxLengthOfStraightPath)
    {
      var offset := rng.Range(-1, 2);
      assert forall n :: n in AllNodes(Map) ==> n.Y == old(n.Y);
      newY := Clamp(baseNode.Y + offset, 0, FloorWidth - 1);
      straight := IsStraightPath(Map, newY, floorIndex, MaxLengthOfStraightPath);
    }

    /** One node for the floor under construction: up to MaxAttempts lanes
        next to the base node's are drawn until one is accepted; the node
        already on that lane is reused, or a new one is made, recorded in
        `alreadyGenerated` and added to the floor; the base node is connected
        to it. With every attempt rejected nothing changes. `y` is the
        accepted lane. */
    method GenerateNode(baseNode: MapNode, alreadyGenerated: array<MapNode?>, currentFloor: seq<MapNode>,
                        floorIndex: int, ignoreStraightPathCheck: bool, ghost S: set<MapNode>,
                        ghost P: seq<MapNode>, ghost Q: seq<MapNode>)
      returns (floor: seq<MapNode>, ghost found: bool, ghost used: int, ghost y: int)
      requires floorIndex <= |Map|
      requires Slots(alreadyGenerated[..], currentFloor, baseNode.X + 1)
      requires Linked(S + NodesOf(currentFloor)) && baseNode in S && Building(P, Q, currentFloor)
      modifies baseNode`NextNodes, currentFloor`PreviousNodes, alreadyGenerated, rng`Calls
      ensures Slots(alreadyGenerated[..], floor, baseNode.X + 1) && Building(P, Q, floor)
      ensures Linked(S + NodesOf(floor))
      ensures rng.Calls == old(rng.Calls) + used
      ensures Drawn(old(LaneSets(Map)), old(baseNode.Y), rng.Draw, old(rng.Calls), floorIndex, ignoreStraightPathCheck,
                    used, found)
      ensures !found ==>
                alreadyGenerated[..] == old(alreadyGenerated[..]) && floor == currentFloor
                && baseNode.NextNodes == old(baseNode.NextNodes)
                && forall n :: n in currentFloor ==> n.PreviousNodes == old(n.PreviousNodes)
      ensures found ==> y == Candidate(old(baseNode.Y), rng.Draw, old(rng.Calls) + used - 1)
      ensures found ==> Placed(baseNode, old(baseNode.NextNodes), old(alreadyGenerated[..]), alreadyGenerated[..],
                               currentFloor, floor, y)
      ensures forall n :: n in currentFloor ==> n in floor
      ensures forall n :: n in floor ==> n in currentFloor || fresh(n)
      ensures found ==> |baseNode.NextNodes| > 0 && |floor| > 0
      ensures forall n :: n in baseNode.NextNodes ==> n in old(baseNode.NextNodes) || n in floor
      ensures forall n :: n in old(baseNode.NextNodes) ==> n in baseNode.NextNodes
    {
      ghost var lanes := LaneSets(Map);
      var drawn, newY := DrawLane(baseNode, floorIndex, ignoreStraightPathCheck, lanes);
      found, used, y := drawn, rng.Calls - old(rng.Calls), newY;
      if !drawn {
        floor := currentFloor;
        return;
      }
      assert Drawn(old(LaneSets(Map)), old(baseNode.Y), rng.Draw, old(rng.Calls), floorIndex, ignoreStraightPathCheck, used, found);
      assert y == Candidate(old(baseNode.Y), rng.Draw, old(rng.Calls) + used - 1);
      floor := PlaceNode(baseNode, alreadyGenerated, currentFloor, newY, S, P, Q);
    }

    /** The node on lane `newY` of the floor under construction: the one
        recorded there, or a new node recorded there and added to the floor. */
    static method NodeOnLane(alreadyGenerated: array<MapNode?>, currentFloor: seq<MapNode>, newX: int, newY: int,
                             ghost S: set<MapNode>, ghost P: seq<MapNode>, ghost Q: seq<MapNode>)
      returns (newNode: MapNode, floor: seq<MapNode>)
      requires 0 <= newY < FloorWidth
      requires Slots(alreadyGenerated[..], currentFloor, newX)
      requires Linked(S + NodesOf(currentFloor)) && Building(P, Q, currentFloor)
      modifies alreadyGenerated
      ensures Slots(alreadyGenerated[..], floor, newX) && Building(P, Q, floor)
      ensures Linked(S + NodesOf(floor)) && newNode in floor
      ensures OnLane(old(alreadyGenerated[..]), alreadyGenerated[..], currentFloor, floor, newNode, newY)
      ensures old(alreadyGenerated[newY]) == null ==> fresh(newNode) && newNode.X == newX
      ensures forall n :: n in currentFloor ==> n in floor
      ensures forall n :: n in floor ==> n in currentFloor || fresh(n)
    {
      if alreadyGenerated[newY] == null {
        newNode := new MapNode(newX, newY);
        floor := currentFloor + [newNode];
        LinkedAddIsolated(S + NodesOf(currentFloor), {newNode});
        assert S + NodesOf(floor) == S + NodesOf(currentFloor) + {newNode};
        assert Leaves(floor);
        ghost var generated := alreadyGenerated[..];
        SlotsAdd(generated, currentFloor, newX, newNode);
        alreadyGenerated[newY] := newNode;
        assert alreadyGenerated[..] == generated[newY := newNode];
      } else {
        newNode := alreadyGenerated[newY];
        floor := currentFloor;
      }
    }

    /** The part of GenerateNode after the lane `newY` is accepted. */
    static method PlaceNode(baseNode: MapNode, alreadyGenerated: array<MapNode?>, currentFloor: seq<MapNode>,
                            newY: int, ghost S: set<MapNode>, ghost P: seq<MapNode>, ghost Q: seq<MapNode>)
      returns (floor: seq<MapNode>)
      requires 0 <= newY < FloorWidth
      requires Slots(alreadyGenerated[..], currentFloor, baseNode.X + 1)
      requires Linked(S + NodesOf(currentFloor)) && baseNode in S && Building(P, Q, currentFloor)
      modifies baseNode`NextNodes, currentFloor`PreviousNodes, alreadyGenerated
      ensures Slots(alreadyGenerated[..], floor, baseNode.X + 1) && Building(P, Q, floor)
      ensures Linked(S + NodesOf(floor))
      ensures Placed(baseNode, old(baseNode.NextNodes), old(alreadyGenerated[..]), alreadyGenerated[..],
                     currentFloor, floor, newY)
      ensures forall n :: n in currentFloor ==> n in floor
      ensures forall n :: n in floor ==> n in currentFloor || fresh(n)
      ensures |baseNode.NextNodes| > 0 && |floor| > 0
      ensures forall n :: n in baseNode.NextNodes ==> n in old(baseNode.NextNodes) || n in floor
      ensures forall n :: n in old(baseNode.NextNodes) ==> n in baseNode.NextNodes
    {
      ghost var gen := alreadyGenerated[..];
      var newNode;
      newNode, floor := NodeOnLane(alreadyGenerated, currentFloor, baseNode.X + 1, newY, S, P, Q);
      ghost var gen' := alreadyGenerated[..];
      assert baseNode !in floor;
      Attach(baseNode, newNode, currentFloor, floor, gen, gen', newY, S, P, Q);
      assert alreadyGenerated[..] == gen';
    }

    /** baseNode.Connect(newNode) on a floor under construction, newNode
        being the node NodeOnLane found or made on lane y: the edge is there
        afterwards, once. */
    static method Attach(baseNode: MapNode, newNode: MapNode, currentFloor: seq<MapNode>, floor: seq<MapNode>,
                         ghost oldGenerated: seq<MapNode?>, ghost generated: seq<MapNode?>, ghost y: int,
                         ghost S: set<MapNode>, ghost P: seq<MapNode>, ghost Q: seq<MapNode>)
      requires newNode in floor && baseNode !in floor && baseNode in S
      requires Linked(S + NodesOf(floor)) && Building(P, Q, floor)
      requires OnLane(oldGenerated, generated, currentFloor, floor, newNode, y)
      modifies baseNode`NextNodes, newNode`PreviousNodes
      ensures Linked(S + NodesOf(floor)) && Building(P, Q, floor)
      ensures Placed(baseNode, old(baseNode.NextNodes), oldGenerated, generated, currentFloor, floor, y)
      ensures |baseNode.NextNodes| > 0
      ensures forall n :: n in baseNode.NextNodes ==> n in old(baseNode.NextNodes) || n in floor
      ensures forall n :: n in old(baseNode.NextNodes) ==> n in baseNode.NextNodes
    {
      baseNode.Connect(newNode, S + NodesOf(floor));
    }

    /** The while loop of GenerateMap's first pass: one checked attempt, then
        one unchecked, until the base node has a successor. */
    method ConnectBase(baseNode: MapNode, alreadyGenerated: array<MapNode?>, currentFloor: seq<MapNode>,
                       floorIndex: int, ghost S: set<MapNode>, ghost P: seq<MapNode>, ghost Q: seq<MapNode>)
      returns (floor: seq<MapNode>, ghost passes: nat)
      requires floorIndex <= |Map|
      requires Slots(alreadyGenerated[..], currentFloor, baseNode.X + 1)
      requires Linked(S + NodesOf(currentFloor)) && baseNode in S && Building(P, Q, currentFloor)
      modifies baseNode`NextNodes, currentFloor`PreviousNodes, alreadyGenerated, rng`Calls
      ensures Slots(alreadyGenerated[..], floor, baseNode.X + 1) && Building(P, Q, floor)
      ensures Linked(S + NodesOf(floor))
      ensures forall n :: n in currentFloor ==> n in floor
      ensures forall n :: n in floor ==> n in currentFloor || fresh(n)
      ensures |baseNode.NextNodes| > 0
      ensures passes <= 2 && (passes == 0 <==> |old(baseNode.NextNodes)| > 0)
      ensures forall n :: n in baseNode.NextNodes ==> n in old(baseNode.NextNodes) || n in floor
      ensures forall n :: n in old(baseNode.NextNodes) ==> n in baseNode.NextNodes
    {
      floor, passes := currentFloor, 0;
      var ignoreStraightPathCheck := false;
      while |baseNode.NextNodes| < 1
        invariant Slots(alreadyGenerated[..], floor, baseNode.X + 1) && Building(P, Q, floor)
        invariant Linked(S + NodesOf(floor))
        invariant forall n :: n in currentFloor ==> n in floor
        invariant forall n :: n in floor ==> n in currentFloor || fresh(n)
        invariant forall n :: n in baseNode.NextNodes ==> n in old(baseNode.NextNodes) || n in floor
        invariant forall n :: n in old(baseNode.NextNodes) ==> n in baseNode.NextNodes
        invariant passes <= 2 && (ignoreStraightPathCheck <==> passes > 0)
        invariant passes == 0 ==> baseNode.NextNodes == old(baseNode.NextNodes)
        invariant passes > 0 ==> |old(baseNode.NextNodes)| == 0
        invariant passes == 2 ==> |baseNode.NextNodes| > 0
        decreases (if |baseNode.NextNodes| < 1 then 1 else 0) + (if ignoreStraightPathCheck then 0 else 1)
      {
        ghost var found, used, y;
        floor, found, used, y := GenerateNode(baseNode, alreadyGenerated, floor, floorIndex, ignoreStraightPathCheck, S, P, Q);
        ignoreStraightPathCheck := true;
        passes := passes + 1;
      }
    }

    /** One pass of the first foreach of GenerateMap's floor loop: the j-th
        node of the previous floor gets a successor. */
    method ServeNext(P: seq<MapNode>, j: int, alreadyGenerated: array<MapNode?>, currentFloor: seq<MapNode>,
                     floorIndex: int, ghost S: set<MapNode>)
      returns (floor: seq<MapNode>)
      requires floorIndex <= |Map| && 0 <= j < |P| && P[j].X + 1 == floorIndex
      requires Slots(alreadyGenerated[..], currentFloor, floorIndex)
      requires Linked(S + NodesOf(currentFloor)) && P[j] in S
      requires SuccessorsOn(P, currentFloor) && Started(P[..j]) && Leaves(currentFloor)
      modifies {P[j]}`NextNodes, currentFloor`PreviousNodes, alreadyGenerated, rng`Calls
      ensures Slots(alreadyGenerated[..], floor, floorIndex)
      ensures Linked(S + NodesOf(floor))
      ensures SuccessorsOn(P, floor) && Started(P[..j + 1]) && Leaves(floor)
      ensures forall n :: n in currentFloor ==> n in floor
      ensures forall n :: n in floor ==> n in currentFloor || fresh(n)
      ensures |floor| > 0
    {
      assert P[..j + 1] == P[..j] + [P[j]];
      ghost var passes;
      floor, passes := ConnectBase(P[j], alreadyGenerated, currentFloor, floorIndex, S, P, P[..j]);
      assert P[j].NextNodes[0] in floor;
    }

    /** One pass of the fill loop of GenerateMap's floor loop: a node of the
        previous floor drawn at random gets one checked attempt at another
        successor. */
    method FillNext(P: seq<MapNode>, alreadyGenerated: array<MapNode?>, currentFloor: seq<MapNode>,
                    floorIndex: int, ghost S: set<MapNode>)
      returns (floor: seq<MapNode>)
      requires floorIndex <= |Map| && |P| > 0 && forall m :: m in P ==> m.X + 1 == floorIndex && m in S
      requires Slots(alreadyGenerated[..], currentFloor, floorIndex)
      requires Linked(S + NodesOf(currentFloor))
      requires SuccessorsOn(P, currentFloor) && Started(P) && Leaves(currentFloor)
      modifies P`NextNodes, currentFloor`PreviousNodes, alreadyGenerated, rng`Calls
      ensures Slots(alreadyGenerated[..], floor, floorIndex)
      ensures Linked(S + NodesOf(floor))
      ensures SuccessorsOn(P, floor) && Started(P) && Leaves(floor)
      ensures |currentFloor| > 0 ==> |floor| > 0
      ensures forall n :: n in currentFloor ==> n in floor
      ensures forall n :: n in floor ==> n in currentFloor || fresh(n)
    {
      var r := rng.Range(0, |P|);
      floor := FillFrom(P, r, alreadyGenerated, currentFloor, floorIndex, S);
    }

    /** The checked attempt of FillNext from the base node at position r. */
    method FillFrom(P: seq<MapNode>, r: int, alreadyGenerated: array<MapNode?>, currentFloor: seq<MapNode>,
                    floorIndex: int, ghost S: set<MapNode>)
      returns (floor: seq<MapNode>)
      requires floorIndex <= |Map| && 0 <= r < |P| && P[r].X + 1 == floorIndex && P[r] in S
      requires Slots(alreadyGenerated[..], currentFloor, floorIndex)
      requires Linked(S + NodesOf(currentFloor))
      requires Building(P, P, currentFloor)
      modifies P`NextNodes, currentFloor`PreviousNodes, alreadyGenerated, rng`Calls
      ensures Slots(alreadyGenerated[..], floor, floorIndex)
      ensures Linked(S + NodesOf(floor))
      ensures Building(P, P, floor)
      ensures |currentFloor| > 0 ==> |floor| > 0
      ensures forall n :: n in currentFloor ==> n in floor
      ensures forall n :: n in floor ==> n in currentFloor || fresh(n)
    {
      ghost var found, used, y;
      floor, found, used, y := GenerateNode(P[r], alreadyGenerated, currentFloor, floorIndex, false, S, P, P);
      assert |currentFloor| > 0 ==> currentFloor[0] in floor;
    }

    /** One pass of GenerateMap's floor loop, up to the CorrectPaths call:
        every node of the previous floor gets a successor, then the floor is
        filled by drawing base nodes at random. */
    method GenerateFloor(floorIndex: int, ghost S: set<MapNode>) returns (currentFloor: seq<MapNode>)
      requires 0 < floorIndex <= |Map| && Map[floorIndex - 1] != []
      requires forall n :: n in Map[floorIndex - 1] ==> n.X == floorIndex - 1 && n.NextNodes == []
      requires Linked(S) && NodesOf(Map[floorIndex - 1]) <= S
      modifies Map[floorIndex - 1]`NextNodes, rng`Calls
      ensures Started(Map[floorIndex - 1]) && SuccessorsOn(Map[floorIndex - 1], currentFloor)
      ensures Linked(S + NodesOf(currentFloor))
      ensures 0 < |currentFloor| <= MaxNodesPerFloor && Lanes(currentFloor, floorIndex) && Leaves(currentFloor)
      ensures forall n :: n in currentFloor ==> fresh(n)
    {
      var previousFloor := Map[floorIndex - 1];
      currentFloor := [];
      var alreadyGenerated := new MapNode?[MaxNodesPerFloor](_ => null);
      assert Slots(alreadyGenerated[..], currentFloor, floorIndex);
      assert NodesOf(currentFloor) == {};
      assert S + NodesOf(currentFloor) == S;
      for j := 0 to |previousFloor|
        invariant Slots(alreadyGenerated[..], currentFloor, floorIndex)
        invariant Linked(S + NodesOf(currentFloor))
        invariant forall n :: n in currentFloor ==> fresh(n)
        invariant SuccessorsOn(previousFloor, currentFloor) && Started(previousFloor[..j]) && Leaves(currentFloor)
        invariant j > 0 ==> |currentFloor| > 0
      {
        currentFloor := ServeNext(previousFloor, j, alreadyGenerated, currentFloor, floorIndex, S);
      }
      assert previousFloor[..|previousFloor|] == previousFloor;
      var i := |currentFloor|;
      while i < MaxNodesPerFloor
        invariant Slots(alreadyGenerated[..], currentFloor, floorIndex)
        invariant Linked(S + NodesOf(currentFloor))
        invariant forall n :: n in currentFloor ==> fresh(n)
        invariant SuccessorsOn(previousFloor, currentFloor) && Started(previousFloor) && Leaves(currentFloor)
        invariant |currentFloor| > 0
      {
        currentFloor := FillNext(previousFloor, alreadyGenerated, currentFloor, floorIndex, S);
        i := i + 1;
      }
      SlotsLanes(alreadyGenerated[..], currentFloor, floorIndex);
      SlotsBound(alreadyGenerated[..], currentFloor, floorIndex);
    }

    /** CorrectPaths: every pair of crossing edges leaving the previous floor
        P is collected first, on the unmodified floor; then each collected
        pair is uncrossed by exchanging the two successors. Only edges from P
        to its successor floor C change, and no node is made. When the
        nodes of P have distinct lanes, no crossing pair is left. */
    static method CorrectPaths(previousFloor: seq<MapNode>, ghost C: seq<MapNode>, ghost S: set<MapNode>)
      returns (ghost swaps: seq<Swap>, ghost N: map<MapNode, seq<MapNode>>, ghost L: map<MapNode, int>)
      requires Linked(S) && NodesOf(previousFloor) <= S && NodesOf(C) <= S
      requires forall m :: m in previousFloor ==> m !in C
      requires Building(previousFloor, previousFloor, C)
      modifies previousFloor`NextNodes, NodesOf(C)`PreviousNodes
      ensures N == old(NextMap(NodesOf(previousFloor))) && L == old(LaneMap(NodesOf(previousFloor) + NodesOf(C)))
      ensures Linked(S) && Building(previousFloor, previousFloor, C)
      ensures forall t :: t in swaps <==> CrossesIn(N, L, t)
      ensures forall t :: t in swaps ==> t.nodeA in N && t.nodeB in N
      ensures forall m :: m in previousFloor ==> m.NextNodes == SwappedAll(N, swaps)[m]
      ensures old(DistinctLanes(previousFloor)) ==> forall t :: !CrossesIn(SwappedAll(N, swaps), L, t)
    {
      var found := CollectSwaps(previousFloor);
      swaps := found;
      N := NextMap(NodesOf(previousFloor));
      L := LaneMap(NodesOf(previousFloor) + NodesOf(C));
      SwapsPlanned(previousFloor, C, S, N, L, found);
      ApplySwaps(found, previousFloor, C, S, N);
    }

    /** What the swaps list collected on the unmodified floor P amounts to,
        over the snapshots N of its successor lists and L of the lanes: its
        entries are the crossing pairs of N, they stay between P and C, and
        on distinct lanes applying them leaves no crossing pair. */
    static lemma SwapsPlanned(P: seq<MapNode>, C: seq<MapNode>, S: set<MapNode>,
                              N: map<MapNode, seq<MapNode>>, L: map<MapNode, int>, swaps: seq<Swap>)
      requires Linked(S) && NodesOf(P) <= S && Building(P, P, C)
      requires N == NextMap(NodesOf(P)) && L == LaneMap(NodesOf(P) + NodesOf(C))
      requires forall t :: t in swaps <==> t.nodeA in P && t.nodeB in P && Crosses(t)
      ensures forall t :: t in swaps <==> CrossesIn(N, L, t)
      ensures forall t :: t in swaps ==> t.nodeA in N && t.nodeB in N && Within(t, P, C)
      ensures DistinctLanes(P) ==> forall t :: !CrossesIn(SwappedAll(N, swaps), L, t)
    {
      OwnLanesOf(P, C, N, L, S);
      CrossesSnapshot(P, C, N, L, swaps);
      if DistinctLanes(P) {
        Uncrossed(N, L, swaps);
      }
    }

    /** The last foreach of CorrectPaths: the entries of the swaps list
        applied in order, each on the lists the ones before it left. */
    static method ApplySwaps(swaps: seq<Swap>, ghost P: seq<MapNode>, ghost C: seq<MapNode>, ghost S: set<MapNode>,
                             ghost N: map<MapNode, seq<MapNode>>)
      requires forall t :: t in swaps ==> Within(t, P, C)
      requires Linked(S) && NodesOf(P) <= S && NodesOf(C) <= S
      requires forall m :: m in P ==> m !in C
      requires Building(P, P, C)
      requires N.Keys == NodesOf(P) && forall m :: m in P ==> m.NextNodes == N[m]
      requires forall t :: t in swaps ==> t.nodeA in N && t.nodeB in N
      modifies P`NextNodes, NodesOf(C)`PreviousNodes
      ensures Linked(S) && Building(P, P, C)
      ensures forall m :: m in P ==> m.NextNodes == SwappedAll(N, swaps)[m]
    {
      for k := 0 to |swaps|
        invariant Linked(S) && Building(P, P, C)
        invariant forall m :: m in P ==> m.NextNodes == SwappedAll(N, swaps[..k])[m]
      {
        ApplyNext(swaps, k, P, C, S, N);
      }
      assert swaps[..|swaps|] == swaps;
    }

    /** One pass of the last foreach of CorrectPaths: the k-th entry of the
        swaps list applied to the lists the entries before it left. */
    static method ApplyNext(swaps: seq<Swap>, k: nat, ghost P: seq<MapNode>, ghost C: seq<MapNode>,
                            ghost S: set<MapNode>, ghost N: map<MapNode, seq<MapNode>>)
      requires k < |swaps| && forall t :: t in swaps ==> Within(t, P, C)
      requires Linked(S) && NodesOf(P) <= S && NodesOf(C) <= S
      requires forall m :: m in P ==> m !in C
      requires Building(P, P, C)
      requires N.Keys == NodesOf(P) && forall t :: t in swaps ==> t.nodeA in N && t.nodeB in N
      requires forall m :: m in P ==> m.NextNodes == SwappedAll(N, swaps[..k])[m]
      modifies P`NextNodes, NodesOf(C)`PreviousNodes
      ensures Linked(S) && Building(P, P, C)
      ensures forall m :: m in P ==> m.NextNodes == SwappedAll(N, swaps[..k + 1])[m]
    {
      var t := swaps[k];
      assert t.nextA in NodesOf(C) && t.nextB in NodesOf(C);
      ghost var R := SwappedAll(N, swaps[..k]);
      SwappedAllStep(N, swaps, k);
      ApplySwap(t, P, C, S, R);
    }

    /** The two outer foreach loops of CorrectPaths: the swaps list holds
        exactly the crossing pairs of edges leaving the floor. */
    static method CollectSwaps(previousFloor: seq<MapNode>) returns (swaps: seq<Swap>)
      ensures forall t :: t in swaps <==> t.nodeA in previousFloor && t.nodeB in previousFloor && Crosses(t)
    {
      swaps := [];
      for i := 0 to |previousFloor|
        invariant forall t :: t in swaps <==> t.nodeA in previousFloor[..i] && t.nodeB in previousFloor && Crosses(t)
      {
        var row := CollectFrom(previousFloor[i], previousFloor);
        assert previousFloor[..i + 1] == previousFloor[..i] + [previousFloor[i]];
        swaps := swaps + row;
      }
      assert previousFloor[..|previousFloor|] == previousFloor;
    }

    /** The foreach over nodeB for one nodeA. */
    static method CollectFrom(nodeA: MapNode, previousFloor: seq<MapNode>) returns (row: seq<Swap>)
      ensures forall t :: t in row <==> t.nodeA == nodeA && t.nodeB in previousFloor && Crosses(t)
    {
      row := [];
      for i := 0 to |previousFloor|
        invariant forall t :: t in row <==> t.nodeA == nodeA && t.nodeB in previousFloor[..i] && Crosses(t)
      {
        var pair := CollectPair(nodeA, previousFloor[i]);
        assert previousFloor[..i + 1] == previousFloor[..i] + [previousFloor[i]];
        row := row + pair;
      }
      assert previousFloor[..|previousFloor|] == previousFloor;
    }

    /** The check on one pair of base nodes and the foreach over nextA. */
    static method CollectPair(nodeA: MapNode, nodeB: MapNode) returns (pair: seq<Swap>)
      ensures forall t :: t in pair <==> t.nodeA == nodeA && t.nodeB == nodeB && Crosses(t)
    {
      pair := [];
      if nodeA == nodeB || Abs(nodeA.Y - nodeB.Y) > 1 {
        return;
      }
      for i := 0 to |nodeA.NextNodes|
        invariant forall t :: t in pair <==>
                    t.nodeA == nodeA && t.nodeB == nodeB && t.nextA in nodeA.NextNodes[..i] && Crosses(t)
      {
        var cell := CollectCell(nodeA, nodeB, nodeA.NextNodes[i]);
        assert nodeA.NextNodes[..i + 1] == nodeA.NextNodes[..i] + [nodeA.NextNodes[i]];
        pair := pair + cell;
      }
      assert nodeA.NextNodes[..|nodeA.NextNodes|] == nodeA.NextNodes;
    }

    /** The innermost foreach over nextB, for one nextA. */
    static method CollectCell(nodeA: MapNode, nodeB: MapNode, nextA: MapNode) returns (cell: seq<Swap>)
      requires nodeA != nodeB && Abs(nodeA.Y - nodeB.Y) <= 1 && nextA in nodeA.NextNodes
      ensures forall t :: t in cell <==> t.nodeA == nodeA && t.nodeB == nodeB && t.nextA == nextA && Crosses(t)
    {
      cell := [];
      for i := 0 to |nodeB.NextNodes|
        invariant forall t :: t in cell <==>
                    t.nodeA == nodeA && t.nodeB == nodeB && t.nextA == nextA
                    && t.nextB in nodeB.NextNodes[..i] && Crosses(t)
      {
        var nextB := nodeB.NextNodes[i];
        if nextA.Y == nodeB.Y && nextB.Y == nodeA.Y {
          cell := cell + [Swap(nodeA, nodeB, nextA, nextB)];
        }
        assert nodeB.NextNodes[..i + 1] == nodeB.NextNodes[..i] + [nextB];
      }
      assert nodeB.NextNodes[..|nodeB.NextNodes|] == nodeB.NextNodes;
    }

    /** One entry of the swaps list applied: nodeA trades nextA for nextB
        and nodeB trades nextB for nextA. */
    static method ApplySwap(t: Swap, ghost P: seq<MapNode>, ghost C: seq<MapNode>, ghost S: set<MapNode>,
                            ghost R: map<MapNode, seq<MapNode>>)
      requires Within(t, P, C)
      requires Linked(S) && NodesOf(P) <= S && NodesOf(C) <= S
      requires forall m :: m in P ==> m !in C
      requires Building(P, P, C)
      requires R.Keys == NodesOf(P) && forall m :: m in P ==> m.NextNodes == R[m]
      modifies {t.nodeA, t.nodeB}`NextNodes, {t.nextA, t.nextB}`PreviousNodes
      ensures Linked(S) && Building(P, P, C)
      ensures forall m :: m in P ==> m.NextNodes == Swapped(R, t)[m]
    {
      Redirect(t.nodeA, t.nextA, t.nextB, P, C, S, R);
      ghost var R1 := R[t.nodeA := Redirected(R[t.nodeA], t.nextA, t.nextB)];
      Redirect(t.nodeB, t.nextB, t.nextA, P, C, S, R1);
    }

    /** nodeA.Disconnect(from) followed by nodeA.Connect(to), for a node m
        of P and a node `to` of C: the floor stays under construction and
        only m's successor list changes, as Redirected says. */
    static method Redirect(m: MapNode, from: MapNode, to: MapNode, ghost P: seq<MapNode>, ghost C: seq<MapNode>,
                           ghost S: set<MapNode>, ghost R: map<MapNode, seq<MapNode>>)
      requires m in P && to in C
      requires Linked(S) && NodesOf(P) <= S && NodesOf(C) <= S && from in S
      requires forall n :: n in P ==> n !in C
      requires Building(P, P, C)
      requires R.Keys == NodesOf(P) && forall n :: n in P ==> n.NextNodes == R[n]
      modifies m`NextNodes, from`PreviousNodes, to`PreviousNodes
      ensures Linked(S) && Building(P, P, C)
      ensures forall n :: n in P ==> n.NextNodes == R[m := Redirected(R[m], from, to)][n]
    {
      RedirectedFacts(m.NextNodes, from, to);
      m.Disconnect(from, S);
      assert m.NextNodes == RemoveFirst(R[m], from);
      m.Connect(to, S);
      assert m.NextNodes == Redirected(R[m], from, to);
      assert Linked(S);
      assert forall n :: n in C ==> n.NextNodes == [];
      assert forall n :: n in P && n != m ==> n.NextNodes == R[n];
    }

    /** Map.Add: the floor goes on top of the map. */
    method PushFloor(C: seq<MapNode>, ghost S: set<MapNode>)
      requires GeneratedOn(Map + [C], S)
      modifies this`Map
      ensures Map == old(Map) + [C] && GeneratedOn(Map, S)
    {
      Map := Map + [C];
    }

    /** GenerateMap: two starting nodes on floor 0, then NumFloors - 1
        floors, each built on the one before, whose crossing edges are then
        uncrossed. */
    method GenerateMap()
      modifies this`Map, this`HasMap, rng`Calls
      ensures HasMap && |Map| == NumFloors && Generated(Map)
    {
      var a := new MapNode(0, StartY1);
      var b := new MapNode(0, StartY2);
      Map := [[a, b]];
      HasMap := true;
      ghost var S := {a, b};
      StartGenerated(a, b);
      S := AddFloors(S);
    }

    /** The floor loop of GenerateMap: floors 1 to NumFloors - 1, each built
        on the one before. */
    method AddFloors(ghost S: set<MapNode>) returns (ghost S': set<MapNode>)
      requires |Map| == 1 && GeneratedOn(Map, S)
      modifies this`Map, S`NextNodes, rng`Calls
      ensures |Map| == NumFloors && GeneratedOn(Map, S')
    {
      S' := S;
      for floorIndex := 1 to NumFloors
        invariant |Map| == floorIndex && GeneratedOn(Map, S')
        invariant forall n :: n in S' ==> n in S || fresh(n)
      {
        FloorInAll(Map, floorIndex - 1);
        S' := NextFloor(floorIndex, S');
      }
    }

    /** DebugValidateMaps: 10000 maps are generated and checked, each
        cleared afterwards; `valid` is false if any check failed. */
    method DebugValidateMaps() returns (valid: bool)
      modifies this`Map, this`HasMap, rng`Calls
      ensures valid && HasMap && Map == []
    {
      var num := 10000;
      valid := true;
      for n := 1 to num + 1
        invariant valid && (n > 1 ==> HasMap && Map == [])
      {
        var ok := ValidateOne();
        valid := valid && ok;
      }
    }

    /** One pass of DebugValidateMaps: generate, check, Map.Clear(). */
    method ValidateOne() returns (ok: bool)
      modifies this`Map, this`HasMap, rng`Calls
      ensures ok && HasMap && Map == []
    {
      GenerateMap();
      ok := CheckFloors(Map);
      GeneratedLanesDistinct(Map);
      Map := [];
    }

    /** One pass of the floor loop: the floor is built on top of the map,
        its crossings are uncrossed, and it is added to the map. */
    method NextFloor(floorIndex: int, ghost S: set<MapNode>) returns (ghost S': set<MapNode>)
      requires 0 < floorIndex == |Map| && GeneratedOn(Map, S)
      modifies this`Map, NodesOf(Map[floorIndex - 1])`NextNodes, rng`Calls
      ensures |Map| == floorIndex + 1 && GeneratedOn(Map, S')
      ensures forall n :: n in S' ==> n in S || fresh(n)
    {
      TopFloor(Map, S);
      FloorInAll(Map, floorIndex - 1);
      var currentFloor := BuildTop(floorIndex, S);
      GrownMap(Map, currentFloor);
      S' := S + NodesOf(currentFloor);
      PushFloor(currentFloor, S');
    }

    /** The new floor generated on top of the map and its crossings
        uncrossed; only the lanes of the new nodes and the successors of the
        top floor change. */
    method BuildTop(floorIndex: int, ghost S: set<MapNode>)
      returns (currentFloor: seq<MapNode>)
      requires 0 < floorIndex <= |Map| && Map[floorIndex - 1] != []
      requires forall n :: n in Map[floorIndex - 1] ==> n.X == floorIndex - 1 && n.NextNodes == []
      requires Linked(S) && NodesOf(Map[floorIndex - 1]) <= S
      modifies NodesOf(Map[floorIndex - 1])`NextNodes, rng`Calls
      ensures Started(Map[floorIndex - 1]) && SuccessorsOn(Map[floorIndex - 1], currentFloor)
      ensures Linked(S + NodesOf(currentFloor))
      ensures 0 < |currentFloor| <= MaxNodesPerFloor && Lanes(currentFloor, floorIndex) && Leaves(currentFloor)
      ensures forall n :: n in currentFloor ==> fresh(n)
      ensures forall n :: n in S ==> n.Y == old(n.Y)
      ensures forall n :: n in S && n !in NodesOf(Map[floorIndex - 1]) ==> n.NextNodes == old(n.NextNodes)
    {
      var previousFloor := Map[floorIndex - 1];
      currentFloor := GenerateFloor(floorIndex, S);
      assert forall m :: m in previousFloor ==> m !in currentFloor;
      CorrectFloor(previousFloor, currentFloor, S + NodesOf(currentFloor));
    }

    /** The CorrectPaths call of the floor loop, with only what the loop
        keeps of its contract: the floors stay linked and under
        construction. */
    static method CorrectFloor(previousFloor: seq<MapNode>, ghost C: seq<MapNode>, ghost S: set<MapNode>)
      requires Linked(S) && NodesOf(previousFloor) <= S && NodesOf(C) <= S
      requires forall m :: m in previousFloor ==> m !in C
      requires Building(previousFloor, previousFloor, C)
      modifies previousFloor`NextNodes, NodesOf(C)`PreviousNodes
      ensures Linked(S) && Building(previousFloor, previousFloor, C)
    {
      ghost var swaps, N, L := CorrectPaths(previousFloor, C, S);
    }

    /** GetMapData as written: no data before the map exists, otherwise
        every successor is looked up in its node's own floor. */
    method GetMapData() returns (mapData: Option<MapData>)
      ensures !HasMap ==> mapData == None
      ensures HasMap ==> mapData == Some(OwnFloorDataOf(Map))
    {
      if !HasMap {
        return None;
      }
      var d := EncodeFloors(Map, Map);
      return Some(d);
    }

    /** GetMapData with every successor looked up in the next floor, the
        encoding the loaders read. */
    method GetMapDataNextFloor() returns (mapData: Option<MapData>)
      ensures !HasMap ==> mapData == None
      ensures HasMap ==> mapData == Some(MapDataOf(Map))
    {
      if !HasMap {
        return None;
      }
      var d := EncodeFloors(Map, NextFloors(Map));
      return Some(d);
    }

    /** The data DebugSaveMapToFile serialises, or None where it throws:
        on a map not yet built, and at Map[i + 1] when a node of the last
        floor has a successor (the guard i < Map.Count always holds). */
    method DebugSaveMapToFile() returns (saved: Option<MapData>)
      ensures saved.None? <==> !HasMap || TopHasSuccessors(Map)
      ensures saved.Some? ==> saved.value == MapDataOf(Map)
    {
      if !HasMap {
        return None;
      }
      saved := SaveFloors(Map);
    }

    /** The loop of DebugSaveMapToFile over the floors of the map. */
    static method SaveFloors(floors: seq<seq<MapNode>>) returns (saved: Option<MapData>)
      ensures saved.None? <==> TopHasSuccessors(floors)
      ensures saved.Some? ==> saved.value == MapDataOf(floors)
    {
      var fs: seq<FloorData> := [];
      ghost var targets := NextFloors(floors);
      for i := 0 to |floors|
        invariant |fs| == i
        invariant forall f :: 0 <= f < i ==> fs[f] == FloorData(NodesDataOf(floors[f], targets[f]))
        invariant i == |floors| ==> !TopHasSuccessors(floors)
      {
        var floorData := SaveFloor(floors, i);
        if floorData.None? {
          return None;
        }
        fs := fs + [floorData.value];
      }
      assert fs == FloorsDataOf(floors, targets);
      return Some(MapData(fs));
    }

    /** The records of floor i, or None where DebugSaveMapToFile throws. */
    static method SaveFloor(floors: seq<seq<MapNode>>, i: int) returns (floorData: Option<FloorData>)
      requires 0 <= i < |floors|
      ensures floorData.None? <==> i == |floors| - 1 && exists j :: 0 <= j < |floors[i]| && floors[i][j].NextNodes != []
      ensures floorData.Some? ==> floorData.value == FloorData(NodesDataOf(floors[i], NextFloors(floors)[i]))
    {
      var floor := floors[i];
      var nodes: seq<MapNodeData> := [];
      for j := 0 to |floor|
        invariant |nodes| == j
        invariant forall k :: 0 <= k < j ==> nodes[k] == NodeDataOf(floor[k], NextFloors(floors)[i])
        invariant i == |floors| - 1 ==> forall k :: 0 <= k < j ==> floor[k].NextNodes == []
      {
        var nodeData := SaveNode(floors, floor[j], i);
        if nodeData.None? {
          return None;
        }
        nodes := nodes + [nodeData.value];
      }
      return Some(FloorData(nodes));
    }

    /** The record of a node of floor i: Map[i + 1].IndexOf of every
        successor, or None when there is no floor i + 1 to look in. */
    static method SaveNode(floors: seq<seq<MapNode>>, node: MapNode, i: int) returns (nodeData: Option<MapNodeData>)
      requires 0 <= i < |floors|
      ensures nodeData.None? <==> i == |floors| - 1 && node.NextNodes != []
      ensures nodeData.Some? ==> nodeData.value == NodeDataOf(node, NextFloors(floors)[i])
    {
      var indices: seq<int> := [];
      for t := 0 to |node.NextNodes|
        invariant t > 0 ==> i < |floors| - 1
        invariant indices == IndicesIn(node.NextNodes[..t], NextFloors(floors)[i])
      {
        assert node.NextNodes[..t + 1][..t] == node.NextNodes[..t];
        if i + 1 >= |floors| {
          return None;
        }
        var nextFloor := floors[i + 1];
        var index := IndexOf(nextFloor, node.NextNodes[t]);
        if index != -1 {
          indices := indices + [index];
        }
      }
      assert node.NextNodes[..|node.NextNodes|] == node.NextNodes;
      if i == |floors| - 1 {
        assert IndicesIn(node.NextNodes, NextFloors(floors)[i]) == [];
      }
      return Some(MapNodeData(node.X, node.Y, indices));
    }

    /** The part the two loaders share: a fresh node per record, Map set to
        the new floors, then the nodes connected by their indices. ok is
        false where an index outside the next floor makes List's indexer
        throw, which leaves the map partly connected. */
    method BuildFromData(d: MapData) returns (ok: bool)
      modifies this`Map, this`HasMap
      ensures HasMap && Copied(Map, d) && Distinct(Map) && Linked(AllNodes(Map))
      ensures forall i, j :: 0 <= i < |Map| && 0 <= j < |Map[i]| ==> fresh(Map[i][j]) && !Map[i][j].IsPlayerHere
      ensures ok <==> ValidIndices(d)
      ensures ok ==> Connected(Map, d)
    {
      var floors := CreateFloors(d);
      Map := floors;
      HasMap := true;
      ghost var S := AllNodes(floors);
      UnconnectedLinked(floors);
      ok := ConnectFloors(floors, d, S);
    }

    /** LoadMapFromData: no data, or data without floors, generates a new
        map; otherwise the map is rebuilt from the data. */
    method LoadMapFromData(mapData: Option<MapData>) returns (ok: bool)
      modifies this`Map, this`HasMap, rng`Calls
      ensures mapData.None? || |mapData.value.Floors| == 0 ==> ok && HasMap && |Map| == NumFloors && Generated(Map)
      ensures mapData.Some? && |mapData.value.Floors| > 0 ==>
                HasMap && Copied(Map, mapData.value) && Distinct(Map) && Linked(AllNodes(Map))
                && (ok <==> ValidIndices(mapData.value)) && (ok ==> Connected(Map, mapData.value))
    {
      if mapData.None? || |mapData.value.Floors| == 0 {
        GenerateMap();
        return true;
      }
      ok := BuildFromData(mapData.value);
    }

    /** DebugLoadMapFromFile: a missing file changes nothing; otherwise the
        map is rebuilt from the file's data, even one without floors. */
    method DebugLoadMapFromFile(fileExists: bool, mapData: MapData) returns (ok: bool)
      modifies this`Map, this`HasMap
      ensures !fileExists ==> ok && Map == old(Map) && HasMap == old(HasMap)
      ensures fileExists ==>
                HasMap && Copied(Map, mapData) && Distinct(Map) && Linked(AllNodes(Map))
                && (ok <==> ValidIndices(mapData)) && (ok ==> Connected(Map, mapData))
    {
      if !fileExists {
        return true;
      }
      ok := BuildFromData(mapData);
    }
  }
}
