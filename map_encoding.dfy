/** The index encoding of the overworld map in save data
    (Assets/NodeMapGenerator.cs: GetMapData, LoadMapFromData and the debug
    file pair). A node is saved as its position and, for each successor, the
    index of that successor in a floor of the map; loading creates a fresh
    node per record and connects the nodes by those indices. */
module MapEncoding {
  import opened Lists
  import opened MapNodes
  import opened JsonObjects

  // ---------------------------------------------------------------------
  // Saving

  /** The floor DebugSaveMapToFile looks the successors of floor f up in:
      floor f + 1, and an empty floor above the last one. */
  function NextFloors(floors: seq<seq<MapNode>>): (r: seq<seq<MapNode>>)
    ensures |r| == |floors|
    ensures forall f :: 0 <= f < |floors| - 1 ==> r[f] == floors[f + 1]
    ensures |floors| > 0 ==> r[|floors| - 1] == []
  {
    if floors == [] then [] else floors[1..] + [[]]
  }

  /** The record saved for a node: its position and, for each successor
      that `target` holds, the successor's index in `target`. */
  ghost function NodeDataOf(n: MapNode, target: seq<MapNode>): MapNodeData
    reads n
  {
    MapNodeData(n.X, n.Y, IndicesIn(n.NextNodes, target))
  }

  /** The records of a floor, node by node. */
  ghost function NodesDataOf(floor: seq<MapNode>, target: seq<MapNode>): (r: seq<MapNodeData>)
    reads floor
    ensures |r| == |floor|
    ensures forall j :: 0 <= j < |floor| ==> r[j] == NodeDataOf(floor[j], target)
  {
    if floor == [] then []
    else NodesDataOf(floor[..|floor| - 1], target) + [NodeDataOf(floor[|floor| - 1], target)]
  }

  /** The records of the floors, floor f looking successors up in
      targets[f]. */
  ghost function FloorsDataOf(floors: seq<seq<MapNode>>, targets: seq<seq<MapNode>>): (r: seq<FloorData>)
    requires |targets| == |floors|
    reads AllNodes(floors)
    ensures |r| == |floors|
    ensures forall f :: 0 <= f < |floors| ==> r[f] == FloorData(NodesDataOf(floors[f], targets[f]))
  {
    if floors == [] then []
    else
      var k := |floors| - 1;
      FloorsDataOf(floors[..k], targets[..k]) + [FloorData(NodesDataOf(floors[k], targets[k]))]
  }

  /** The save data with successors recorded as indices into the next
      floor: what DebugSaveMapToFile writes. */
  ghost function MapDataOf(floors: seq<seq<MapNode>>): MapData
    reads AllNodes(floors)
  {
    MapData(FloorsDataOf(floors, NextFloors(floors)))
  }

  /** The save data with successors looked up in the node's own floor:
      what GetMapData returns. */
  ghost function OwnFloorDataOf(floors: seq<seq<MapNode>>): MapData
    reads AllNodes(floors)
  {
    MapData(FloorsDataOf(floors, floors))
  }

  /** The inner foreach of the savers: the record of `node`, with the
      index in `target` of every successor `target` holds. */
  method EncodeNode(node: MapNode, target: seq<MapNode>) returns (nodeData: MapNodeData)
    ensures nodeData == NodeDataOf(node, target)
  {
    var indices: seq<int> := [];
    for t := 0 to |node.NextNodes|
      invariant indices == IndicesIn(node.NextNodes[..t], target)
    {
      assert node.NextNodes[..t + 1][..t] == node.NextNodes[..t];
      var index := IndexOf(target, node.NextNodes[t]);
      if index != -1 {
        indices := indices + [index];
      }
    }
    assert node.NextNodes[..|node.NextNodes|] == node.NextNodes;
    nodeData := MapNodeData(node.X, node.Y, indices);
  }

  /** The records of one floor. */
  method EncodeFloor(floor: seq<MapNode>, target: seq<MapNode>) returns (floorData: FloorData)
    ensures floorData == FloorData(NodesDataOf(floor, target))
  {
    var nodes: seq<MapNodeData> := [];
    for j := 0 to |floor|
      invariant |nodes| == j
      invariant forall k :: 0 <= k < j ==> nodes[k] == NodeDataOf(floor[k], target)
    {
      var nodeData := EncodeNode(floor[j], target);
      nodes := nodes + [nodeData];
    }
    floorData := FloorData(nodes);
  }

  /** The records of all floors, floor f against targets[f]. */
  method EncodeFloors(floors: seq<seq<MapNode>>, targets: seq<seq<MapNode>>) returns (mapData: MapData)
    requires |targets| == |floors|
    ensures mapData == MapData(FloorsDataOf(floors, targets))
  {
    var fs: seq<FloorData> := [];
    for i := 0 to |floors|
      invariant |fs| == i
      invariant forall f :: 0 <= f < i ==> fs[f] == FloorData(NodesDataOf(floors[f], targets[f]))
    {
      var floorData := EncodeFloor(floors[i], targets[i]);
      fs := fs + [floorData];
    }
    mapData := MapData(fs);
  }

  // ---------------------------------------------------------------------
  // Loading

  /** The records of floor i, as the loader reads them. */
  function Records(d: MapData, i: int): seq<MapNodeData>
    requires 0 <= i < |d.Floors|
  {
    d.Floors[i].Nodes
  }

  /** Every index of floor i names a node of floor i + 1. */
  predicate FloorValid(d: MapData, i: int)
    requires 0 <= i < |d.Floors| - 1
  {
    forall j :: 0 <= j < |Records(d, i)| ==> InRange(Records(d, i)[j].NextNodeIndices, |Records(d, i + 1)|)
  }

  /** The loader reaches no index outside the next floor; the indices of
      the last floor are never read. */
  predicate ValidIndices(d: MapData) {
    forall i :: 0 <= i < |d.Floors| - 1 ==> FloorValid(d, i)
  }

  /** The save data DebugSaveMapToFile produces for a well-formed map:
      valid indices, none repeated within a node, none on the last floor. */
  predicate Canonical(d: MapData) {
    ValidIndices(d)
    && (forall i, j :: 0 <= i < |d.Floors| && 0 <= j < |Records(d, i)| ==> NoDup(Records(d, i)[j].NextNodeIndices))
    && (forall i, j :: i == |d.Floors| - 1 && 0 <= i && 0 <= j < |Records(d, i)| ==>
                         Records(d, i)[j].NextNodeIndices == [])
  }

  /** One node per record, floor by floor. */
  predicate Shaped(floors: seq<seq<MapNode>>, d: MapData) {
    |floors| == |d.Floors| && forall i :: 0 <= i < |floors| ==> |floors[i]| == |Records(d, i)|
  }

  /** Node j of floor i stands where record j of floor i says. */
  ghost predicate Copied(floors: seq<seq<MapNode>>, d: MapData)
    reads AllNodes(floors)`Y
  {
    Shaped(floors, d)
    && forall i, j :: 0 <= i < |floors| && 0 <= j < |floors[i]| ==>
         floors[i][j].X == Records(d, i)[j].X && floors[i][j].Y == Records(d, i)[j].Y
  }

  /** No node occurs twice in the map. */
  ghost predicate Distinct(floors: seq<seq<MapNode>>) {
    (forall f :: 0 <= f < |floors| ==> NoDup(floors[f]))
    && forall f, g :: 0 <= f < g < |floors| ==> NodesOf(floors[f]) !! NodesOf(floors[g])
  }

  /** The successors loading gives a node whose record holds `idx`: the
      nodes of the next floor at those indices, each once, in the order of
      first appearance. */
  ghost function Wanted(next: seq<MapNode>, idx: seq<int>): seq<MapNode>
    requires InRange(idx, |next|)
  {
    Dedup(Targets(next, idx))
  }

  /** Floor i is connected as its records say. */
  ghost predicate FloorConnected(floors: seq<seq<MapNode>>, d: MapData, i: int)
    requires Shaped(floors, d) && 0 <= i < |floors| - 1 && FloorValid(d, i)
    reads NodesOf(floors[i])`NextNodes
  {
    forall j :: 0 <= j < |floors[i]| ==> floors[i][j].NextNodes == Wanted(floors[i + 1], Records(d, i)[j].NextNodeIndices)
  }

  /** Every floor but the last is connected as its records say; the last
      floor has no successors. */
  ghost predicate Connected(floors: seq<seq<MapNode>>, d: MapData)
    requires Shaped(floors, d) && ValidIndices(d)
    reads AllNodes(floors)`NextNodes
  {
    (forall i :: 0 <= i < |floors| - 1 ==> FloorConnected(floors, d, i))
    && (forall i, j :: i == |floors| - 1 && 0 <= i && 0 <= j < |floors[i]| ==> floors[i][j].NextNodes == [])
  }

  /** The floor loop of the loaders: new MapNode(X, Y) for every record. */
  method CreateFloor(records: seq<MapNodeData>) returns (floor: seq<MapNode>)
    ensures |floor| == |records| && NoDup(floor)
    ensures forall j :: 0 <= j < |floor| ==>
              fresh(floor[j]) && floor[j].X == records[j].X && floor[j].Y == records[j].Y
              && floor[j].NextNodes == [] && floor[j].PreviousNodes == [] && !floor[j].IsPlayerHere
  {
    floor := [];
    for j := 0 to |records|
      invariant |floor| == j && NoDup(floor)
      invariant forall k :: 0 <= k < j ==>
                  fresh(floor[k]) && floor[k].X == records[k].X && floor[k].Y == records[k].Y
                  && floor[k].NextNodes == [] && floor[k].PreviousNodes == [] && !floor[k].IsPlayerHere
    {
      var node := new MapNode(records[j].X, records[j].Y);
      floor := floor + [node];
    }
  }

  /** The nodes of all floors, before any is connected. */
  method CreateFloors(d: MapData) returns (floors: seq<seq<MapNode>>)
    ensures Shaped(floors, d) && Distinct(floors)
    ensures forall i, j :: 0 <= i < |floors| && 0 <= j < |floors[i]| ==>
              fresh(floors[i][j]) && floors[i][j].X == Records(d, i)[j].X && floors[i][j].Y == Records(d, i)[j].Y
              && floors[i][j].NextNodes == [] && floors[i][j].PreviousNodes == [] && !floors[i][j].IsPlayerHere
  {
    floors := [];
    for i := 0 to |d.Floors|
      invariant |floors| == i && Distinct(floors)
      invariant forall f :: 0 <= f < i ==> |floors[f]| == |Records(d, f)|
      invariant forall f, j :: 0 <= f < i && 0 <= j < |floors[f]| ==>
                  fresh(floors[f][j]) && floors[f][j].X == Records(d, f)[j].X && floors[f][j].Y == Records(d, f)[j].Y
                  && floors[f][j].NextNodes == [] && floors[f][j].PreviousNodes == [] && !floors[f][j].IsPlayerHere
    {
      var floor := CreateFloor(Records(d, i));
      floors := floors + [floor];
    }
  }

  /** Nodes without edges are linked. */
  lemma UnconnectedLinked(floors: seq<seq<MapNode>>)
    requires forall i, j :: 0 <= i < |floors| && 0 <= j < |floors[i]| ==>
               floors[i][j].NextNodes == [] && floors[i][j].PreviousNodes == []
    ensures Linked(AllNodes(floors))
  {
    forall n | n in AllNodes(floors) ensures n.NextNodes == [] && n.PreviousNodes == [] {
      var i :| 0 <= i < |floors| && n in floors[i];
      var j :| 0 <= j < |floors[i]| && floors[i][j] == n;
    }
  }

  /** The foreach over one record's indices: m.Connect(next[index]) for
      each, failing (where List's indexer throws) at the first index outside
      `next`. */
  method ConnectNode(m: MapNode, next: seq<MapNode>, idx: seq<int>, ghost S: set<MapNode>) returns (ok: bool)
    requires m in S && NodesOf(next) <= S && Linked(S) && m.NextNodes == []
    modifies m`NextNodes, NodesOf(next)`PreviousNodes
    ensures Linked(S)
    ensures ok <==> InRange(idx, |next|)
    ensures ok ==> m.NextNodes == Wanted(next, idx)
  {
    for t := 0 to |idx|
      invariant InRange(idx[..t], |next|)
      invariant m.NextNodes == Dedup(Targets(next, idx[..t]))
      invariant Linked(S)
    {
      if !(0 <= idx[t] < |next|) {
        return false;
      }
      var nextNode := next[idx[t]];
      m.Connect(nextNode, S);
      ghost var T := Targets(next, idx[..t + 1]);
      assert T[..t] == Targets(next, idx[..t]) && T[t] == nextNode;
    }
    assert idx[..|idx|] == idx;
    return true;
  }

  /** The loop over the records of one floor, connecting each node to the
      next floor. */
  method ConnectFloor(floor: seq<MapNode>, next: seq<MapNode>, records: seq<MapNodeData>, ghost S: set<MapNode>)
    returns (ok: bool)
    requires |floor| == |records| && NoDup(floor)
    requires NodesOf(floor) <= S && NodesOf(next) <= S && Linked(S)
    requires forall j :: 0 <= j < |floor| ==> floor[j].NextNodes == []
    modifies NodesOf(floor)`NextNodes, NodesOf(next)`PreviousNodes
    ensures Linked(S)
    ensures ok <==> forall j :: 0 <= j < |records| ==> InRange(records[j].NextNodeIndices, |next|)
    ensures ok ==> forall j :: 0 <= j < |floor| ==> floor[j].NextNodes == Wanted(next, records[j].NextNodeIndices)
  {
    for j := 0 to |floor|
      invariant Linked(S)
      invariant forall k :: 0 <= k < j ==> InRange(records[k].NextNodeIndices, |next|)
      invariant forall k :: 0 <= k < j ==> floor[k].NextNodes == Wanted(next, records[k].NextNodeIndices)
      invariant forall k :: j <= k < |floor| ==> floor[k].NextNodes == []
    {
      ok := ConnectNode(floor[j], next, records[j].NextNodeIndices, S);
      if !ok {
        return;
      }
    }
    ok := true;
  }

  /** The connecting loop of the loaders, over every floor but the last. */
  method ConnectFloors(floors: seq<seq<MapNode>>, d: MapData, ghost S: set<MapNode>) returns (ok: bool)
    requires Shaped(floors, d) && Distinct(floors) && S == AllNodes(floors) && Linked(S)
    requires forall i, j :: 0 <= i < |floors| && 0 <= j < |floors[i]| ==> floors[i][j].NextNodes == []
    modifies S`NextNodes, S`PreviousNodes
    ensures Linked(S)
    ensures ok <==> ValidIndices(d)
    ensures ok ==> Connected(floors, d)
  {
    var i := 0;
    while i < |floors| - 1
      invariant 0 <= i && (|floors| > 0 ==> i <= |floors| - 1)
      invariant Linked(S)
      invariant forall f :: 0 <= f < i && f < |floors| - 1 ==> FloorValid(d, f) && FloorConnected(floors, d, f)
      invariant forall f, j :: i <= f < |floors| && 0 <= j < |floors[f]| ==> floors[f][j].NextNodes == []
    {
      ok := ConnectStep(floors, d, i, S);
      if !ok {
        return;
      }
      i := i + 1;
    }
    ok := true;
  }

  /** One pass of ConnectFloors: floor i is connected, the floors below it
      stay connected and those above it stay without successors. */
  method ConnectStep(floors: seq<seq<MapNode>>, d: MapData, i: int, ghost S: set<MapNode>) returns (ok: bool)
    requires Shaped(floors, d) && Distinct(floors) && S == AllNodes(floors) && Linked(S)
    requires 0 <= i < |floors| - 1
    requires forall f :: 0 <= f < i ==> FloorValid(d, f) && FloorConnected(floors, d, f)
    requires forall f, j :: i <= f < |floors| && 0 <= j < |floors[f]| ==> floors[f][j].NextNodes == []
    modifies NodesOf(floors[i])`NextNodes, NodesOf(floors[i + 1])`PreviousNodes
    ensures Linked(S)
    ensures ok <==> FloorValid(d, i)
    ensures ok ==> forall f :: 0 <= f < i + 1 ==> FloorValid(d, f) && FloorConnected(floors, d, f)
    ensures forall f, j :: i + 1 <= f < |floors| && 0 <= j < |floors[f]| ==> floors[f][j].NextNodes == []
  {
    assert NodesOf(floors[i]) <= S && NodesOf(floors[i + 1]) <= S;
    ok := ConnectFloor(floors[i], floors[i + 1], Records(d, i), S);
    forall f | 0 <= f < |floors| && f != i
      ensures forall j :: 0 <= j < |floors[f]| ==> floors[f][j].NextNodes == old(floors[f][j].NextNodes)
    {
      assert NodesOf(floors[f]) !! NodesOf(floors[i]) by {
        if f < i {
          assert NodesOf(floors[f]) !! NodesOf(floors[i]);
        } else {
          assert NodesOf(floors[i]) !! NodesOf(floors[f]);
        }
      }
    }
    forall f | 0 <= f < i ensures FloorValid(d, f) && FloorConnected(floors, d, f) {
      assert old(FloorConnected(floors, d, f));
    }
    if ok {
      assert FloorConnected(floors, d, i);
    }
  }

  // ---------------------------------------------------------------------
  // Round trips

  /** The map as the generator leaves it, in the terms saving needs: no
      node twice, every successor list duplicate-free and inside the next
      floor, and no successors on the last floor. */
  ghost predicate SaveReady(floors: seq<seq<MapNode>>)
    reads AllNodes(floors)`NextNodes
  {
    Distinct(floors)
    && (forall i, j :: 0 <= i < |floors| - 1 && 0 <= j < |floors[i]| ==>
          NoDup(floors[i][j].NextNodes) && AllIn(floors[i][j].NextNodes, floors[i + 1]))
    && (forall i, j :: i == |floors| - 1 && 0 <= i && 0 <= j < |floors[i]| ==> floors[i][j].NextNodes == [])
  }

  /** Saving a well-formed map gives canonical data. */
  lemma SavedCanonical(floors: seq<seq<MapNode>>)
    requires SaveReady(floors)
    ensures Canonical(MapDataOf(floors))
  {
    var d := MapDataOf(floors);
    forall i | 0 <= i < |d.Floors| - 1 ensures FloorValid(d, i) {
      forall j | 0 <= j < |Records(d, i)|
        ensures InRange(Records(d, i)[j].NextNodeIndices, |Records(d, i + 1)|)
      {
        SavedRecord(floors, i, j);
      }
    }
    forall i, j | 0 <= i < |d.Floors| && 0 <= j < |Records(d, i)|
      ensures NoDup(Records(d, i)[j].NextNodeIndices)
    {
      SavedRecord(floors, i, j);
    }
    forall i, j | i == |d.Floors| - 1 && 0 <= i && 0 <= j < |Records(d, i)|
      ensures Records(d, i)[j].NextNodeIndices == []
    {
      SavedRecord(floors, i, j);
    }
  }

  /** SavedCanonical for one record. */
  lemma SavedRecord(floors: seq<seq<MapNode>>, i: int, j: int)
    requires SaveReady(floors) && 0 <= i < |floors| && 0 <= j < |floors[i]|
    ensures |MapDataOf(floors).Floors| == |floors|
    ensures |Records(MapDataOf(floors), i)| == |floors[i]|
    ensures var r := Records(MapDataOf(floors), i)[j].NextNodeIndices;
            NoDup(r)
            && (i < |floors| - 1 ==> |Records(MapDataOf(floors), i + 1)| == |floors[i + 1]| && InRange(r, |floors[i + 1]|))
            && (i == |floors| - 1 ==> r == [])
  {
    var T := NextFloors(floors);
    assert Records(MapDataOf(floors), i)[j] == NodeDataOf(floors[i][j], T[i]);
    if i < |floors| - 1 {
      IndicesNoDup(floors[i][j].NextNodes, floors[i + 1]);
    }
  }

  /** Loading canonical data and saving the result gives the data back. */
  lemma LoadThenSave(floors: seq<seq<MapNode>>, d: MapData)
    requires Canonical(d) && Copied(floors, d) && Distinct(floors) && Connected(floors, d)
    ensures MapDataOf(floors) == d
  {
    var m := MapDataOf(floors);
    forall i | 0 <= i < |floors| ensures m.Floors[i] == d.Floors[i] {
      forall j | 0 <= j < |floors[i]| ensures NodeDataOf(floors[i][j], NextFloors(floors)[i]) == Records(d, i)[j] {
        RecordRoundTrip(floors, d, i, j);
      }
      assert m.Floors[i].Nodes == d.Floors[i].Nodes;
    }
    assert m.Floors == d.Floors;
  }

  /** LoadThenSave for one node. */
  lemma RecordRoundTrip(floors: seq<seq<MapNode>>, d: MapData, i: int, j: int)
    requires Canonical(d) && Copied(floors, d) && Distinct(floors) && Connected(floors, d)
    requires 0 <= i < |floors| && 0 <= j < |floors[i]|
    ensures NodeDataOf(floors[i][j], NextFloors(floors)[i]) == Records(d, i)[j]
  {
    var idx := Records(d, i)[j].NextNodeIndices;
    if i < |floors| - 1 {
      var next := floors[i + 1];
      assert FloorValid(d, i) && FloorConnected(floors, d, i);
      TargetsNoDup(next, idx);
      DedupNoDup(Targets(next, idx));
      IndicesOfTargets(next, idx);
    }
  }

  /** Saving a well-formed map and loading the data rebuilds it: the same
      data, nodes at the same positions, and each successor list made of
      the loaded nodes at the positions of the original successors. */
  lemma SaveThenLoad(floors: seq<seq<MapNode>>, loaded: seq<seq<MapNode>>)
    requires SaveReady(floors) && ValidIndices(MapDataOf(floors))
    requires Copied(loaded, MapDataOf(floors)) && Distinct(loaded) && Connected(loaded, MapDataOf(floors))
    ensures MapDataOf(loaded) == MapDataOf(floors)
    ensures |loaded| == |floors|
    ensures forall i, j :: 0 <= i < |floors| && 0 <= j < |floors[i]| ==>
              j < |loaded[i]| && loaded[i][j].X == floors[i][j].X && loaded[i][j].Y == floors[i][j].Y
    ensures forall i, j :: 0 <= i < |floors| - 1 && 0 <= j < |floors[i]| ==>
              SameSuccessors(loaded, floors, i, j)
  {
    var d := MapDataOf(floors);
    SavedCanonical(floors);
    LoadThenSave(loaded, d);
    forall i, j | 0 <= i < |floors| && 0 <= j < |floors[i]|
      ensures Records(d, i)[j] == NodeDataOf(floors[i][j], NextFloors(floors)[i])
    {
    }
    forall i, j | 0 <= i < |floors| - 1 && 0 <= j < |floors[i]| ensures SameSuccessors(loaded, floors, i, j) {
      SuccessorsRebuilt(floors, loaded, i, j);
    }
  }

  /** Node j of floor i of `loaded` has, at every position t, the node of
      floor i + 1 at the position the t-th successor of the original node
      has in the original floor i + 1. */
  ghost predicate SameSuccessors(loaded: seq<seq<MapNode>>, floors: seq<seq<MapNode>>, i: int, j: int)
    requires 0 <= i < |floors| - 1 && 0 <= j < |floors[i]| && |loaded| == |floors|
    reads floors[i][j], loaded[i]
  {
    var xs := floors[i][j].NextNodes;
    j < |loaded[i]|
    && |loaded[i][j].NextNodes| == |xs|
    && forall t :: 0 <= t < |xs| ==>
         var k := IndexOf(floors[i + 1], xs[t]);
         0 <= k < |loaded[i + 1]| && loaded[i][j].NextNodes[t] == loaded[i + 1][k]
  }

  /** SaveThenLoad for one node's successors. */
  lemma SuccessorsRebuilt(floors: seq<seq<MapNode>>, loaded: seq<seq<MapNode>>, i: int, j: int)
    requires SaveReady(floors) && ValidIndices(MapDataOf(floors))
    requires Copied(loaded, MapDataOf(floors)) && Distinct(loaded) && Connected(loaded, MapDataOf(floors))
    requires 0 <= i < |floors| - 1 && 0 <= j < |floors[i]|
    ensures SameSuccessors(loaded, floors, i, j)
  {
    var d := MapDataOf(floors);
    var xs := floors[i][j].NextNodes;
    var idx := IndicesIn(xs, floors[i + 1]);
    assert Records(d, i)[j] == NodeDataOf(floors[i][j], floors[i + 1]);
    assert FloorValid(d, i) && FloorConnected(loaded, d, i);
    IndicesInAll(xs, floors[i + 1]);
    assert |floors[i + 1]| == |loaded[i + 1]|;
    IndicesNoDup(xs, floors[i + 1]);
    TargetsNoDup(loaded[i + 1], idx);
    DedupNoDup(Targets(loaded[i + 1], idx));
  }

  /** Data whose index lists are all empty reaches no index. */
  lemma EmptyIndicesValid(d: MapData)
    requires forall i, j :: 0 <= i < |d.Floors| && 0 <= j < |Records(d, i)| ==> Records(d, i)[j].NextNodeIndices == []
    ensures ValidIndices(d)
  {
    forall i | 0 <= i < |d.Floors| - 1 ensures FloorValid(d, i) {
      forall j | 0 <= j < |Records(d, i)| ensures InRange(Records(d, i)[j].NextNodeIndices, |Records(d, i + 1)|) {
        assert Records(d, i)[j].NextNodeIndices == [];
      }
    }
  }

  /** Data whose index lists are all empty loads without a single edge. */
  lemma LoadWithoutIndices(loaded: seq<seq<MapNode>>, d: MapData)
    requires Shaped(loaded, d) && ValidIndices(d) && Connected(loaded, d)
    requires forall i, j :: 0 <= i < |d.Floors| && 0 <= j < |Records(d, i)| ==> Records(d, i)[j].NextNodeIndices == []
    ensures forall i, j :: 0 <= i < |loaded| && 0 <= j < |loaded[i]| ==> loaded[i][j].NextNodes == []
  {
    forall i, j | 0 <= i < |loaded| && 0 <= j < |loaded[i]| ensures loaded[i][j].NextNodes == [] {
      if i < |loaded| - 1 {
        assert FloorConnected(loaded, d, i);
        assert Targets(loaded[i + 1], []) == [];
      }
    }
  }
}
