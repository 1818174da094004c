/** Assets/NodeButton.cs: the button of a map node and the rule for moving
    the player onto it. */
module NodeButtons {
  import opened MapNodes
  import opened MapGenerator

  /** The position of the first node of `prev` that holds the player, or
      -1 when none does. */
  function FirstFlagged(prev: seq<MapNode>): (k: int)
    reads prev
    ensures -1 <= k < |prev|
    ensures k == -1 <==> forall i :: 0 <= i < |prev| ==> !prev[i].IsPlayerHere
    ensures 0 <= k ==> prev[k].IsPlayerHere && forall i :: 0 <= i < k ==> !prev[i].IsPlayerHere
    decreases |prev|
  {
    if prev == [] then -1
    else if prev[0].IsPlayerHere then 0
    else
      var k := FirstFlagged(prev[1..]);
      if k == -1 then -1 else k + 1
  }

  class NodeButton {
    var Node: MapNode

    constructor (node: MapNode)
      ensures Node == node
    {
      Node := node;
    }

    /** TryMoveHere. The player may enter the node when it is on floor 0
        and no floor has been entered yet, or when one of its predecessors
        holds the player; on a move through a predecessor the first such
        predecessor gives the player up. A successful move marks the node
        and makes its floor the current one; a refused move changes
        nothing. `generator` stands for NodeMapGenerator.Instance. */
    method TryMoveHere(generator: NodeMapGenerator) returns (moved: bool)
      modifies Node`IsPlayerHere, NodesOf(Node.PreviousNodes)`IsPlayerHere, generator`CurrentFloor
      ensures var start := Node.X == 0 && old(generator.CurrentFloor) == -1;
              var k := old(FirstFlagged(Node.PreviousNodes));
              (moved <==> start || k != -1)
              && (moved ==> Node.IsPlayerHere && generator.CurrentFloor == Node.X)
              && (!moved ==> generator.CurrentFloor == old(generator.CurrentFloor)
                             && Node.IsPlayerHere == old(Node.IsPlayerHere))
              && forall p :: p in Node.PreviousNodes && p != Node ==>
                   p.IsPlayerHere == (if !start && k != -1 && p == Node.PreviousNodes[k] then false
                                      else old(p.IsPlayerHere))
    {
      var canMove := Node.X == 0 && generator.CurrentFloor == -1;
      ghost var cleared := -1;
      if !canMove {
        var prev := Node.PreviousNodes;
        for i := 0 to |prev|
          invariant forall j :: 0 <= j < i ==> !prev[j].IsPlayerHere
          invariant unchanged(NodesOf(prev), Node) && !canMove && cleared == -1
        {
          if prev[i].IsPlayerHere {
            canMove := true;
            cleared := i;
            assert FirstFlagged(prev) == i;
            prev[i].IsPlayerHere := false;
            break;
          }
        }
        assert cleared == old(FirstFlagged(Node.PreviousNodes));
      }
      if canMove {
        Node.IsPlayerHere := true;
        generator.CurrentFloor := Node.X;
      }
      moved := canMove;
    }
  }
}
