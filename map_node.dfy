/** Assets/MapNode.cs: a node of the overworld map. `NextNodes` and
    `PreviousNodes` are the two directions of one edge relation; Connect and
    Disconnect change both directions at once. */
module MapNodes {
  import opened Lists

  class MapNode {
    /** Floor index; the constructor fixes it (private setter). */
    const X: int
    /** Lane on the floor. */
    var Y: int
    var NextNodes: seq<MapNode>
    var PreviousNodes: seq<MapNode>
    /** Player marker used by the movement rule of NodeButton.cs:37-67.
        MapNode.cs declares no IsPlayerHere field; NodeButton.cs uses one. */
    var IsPlayerHere: bool

    constructor (x: int, y: int)
      ensures X == x && Y == y
      ensures NextNodes == [] && PreviousNodes == []
      ensures !IsPlayerHere
    {
      X := x;
      Y := y;
      NextNodes := [];
      PreviousNodes := [];
      IsPlayerHere := false;
    }

    /** Adds the edge this -> nextNode unless it is already there. */
    method Connect(nextNode: MapNode, ghost S: set<MapNode>)
      modifies this`NextNodes, nextNode`PreviousNodes
      ensures nextNode in old(NextNodes) ==>
                NextNodes == old(NextNodes) && nextNode.PreviousNodes == old(nextNode.PreviousNodes)
      ensures nextNode !in old(NextNodes) ==>
                NextNodes == old(NextNodes) + [nextNode]
                && nextNode.PreviousNodes == old(nextNode.PreviousNodes) + [this]
      ensures old(Linked(S)) && this in S && nextNode in S ==> Linked(S)
      ensures nextNode in NextNodes
    {
      if nextNode !in NextNodes {
        NextNodes := NextNodes + [nextNode];
        nextNode.PreviousNodes := nextNode.PreviousNodes + [this];
      }
    }

    /** Removes the edge this -> nextNode if it is there. */
    method Disconnect(nextNode: MapNode, ghost S: set<MapNode>)
      modifies this`NextNodes, nextNode`PreviousNodes
      ensures nextNode !in old(NextNodes) ==>
                NextNodes == old(NextNodes) && nextNode.PreviousNodes == old(nextNode.PreviousNodes)
      ensures nextNode in old(NextNodes) ==>
                NextNodes == RemoveFirst(old(NextNodes), nextNode)
                && nextNode.PreviousNodes == RemoveFirst(old(nextNode.PreviousNodes), this)
      ensures old(Linked(S)) && this in S && nextNode in S ==>
                Linked(S) && nextNode !in NextNodes && this !in nextNode.PreviousNodes
    {
      if nextNode in NextNodes {
        var newNext := RemoveFirst(NextNodes, nextNode);
        var newPrev := RemoveFirst(nextNode.PreviousNodes, this);
        ghost var N, P := NextMap(S), PrevMap(S);
        ghost var N', P' := N[this := newNext], P[nextNode := newPrev];
        ghost var linked := Linked(S) && this in S && nextNode in S;
        if linked {
          LinkedIsLinkedMaps(S);
          MapsAfterDisconnect(S, N, P, this, nextNode, N', P');
        }
        NextNodes := newNext;
        nextNode.PreviousNodes := newPrev;
        if linked {
          LinkedFromMaps(S, N', P');
          RemoveFirstNoDup(old(NextNodes), nextNode);
          RemoveFirstNoDup(old(nextNode.PreviousNodes), this);
        }
      }
    }

    /** Same floor and same lane. */
    predicate OccupiesSameSpace(mapNode: MapNode)
      reads this`Y, mapNode`Y
    {
      X == mapNode.X && Y == mapNode.Y
    }
  }

  /** OccupiesSameSpace is an equivalence: every node shares its own space,
      and sharing a space is symmetric and transitive. */
  lemma SameSpaceEquivalence(a: MapNode, b: MapNode, c: MapNode)
    ensures a.OccupiesSameSpace(a)
    ensures a.OccupiesSameSpace(b) <==> b.OccupiesSameSpace(a)
    ensures a.OccupiesSameSpace(b) && b.OccupiesSameSpace(c) ==> a.OccupiesSameSpace(c)
  {
  }

  /** Every node of the floors. */
  ghost function AllNodes(floors: seq<seq<MapNode>>): (r: set<MapNode>)
    ensures forall f, n :: 0 <= f < |floors| && n in floors[f] ==> n in r
    ensures forall n :: n in r ==> exists f :: 0 <= f < |floors| && n in floors[f]
  {
    set f, n | 0 <= f < |floors| && n in floors[f] :: n
  }

  /** The nodes of one floor. */
  ghost function NodesOf(floor: seq<MapNode>): set<MapNode> {
    set n | n in floor
  }

  /** The edge lists within S are duplicate-free, stay inside S and mirror each
      other: b is a successor of a exactly when a is a predecessor of b. */
  ghost predicate Linked(S: set<MapNode>)
    reads S`NextNodes, S`PreviousNodes
  {
    forall a :: a in S ==>
      NoDup(a.NextNodes) && NoDup(a.PreviousNodes)
      && (forall b :: b in a.NextNodes ==> b in S && a in b.PreviousNodes)
      && (forall b :: b in a.PreviousNodes ==> b in S && a in b.NextNodes)
  }

  /** The successor lists of the nodes of S, as a value. */
  ghost function NextMap(S: set<MapNode>): (m: map<MapNode, seq<MapNode>>)
    reads S`NextNodes
    ensures m.Keys == S && forall n :: n in S ==> m[n] == n.NextNodes
  {
    map n | n in S :: n.NextNodes
  }

  /** The predecessor lists of the nodes of S, as a value. */
  ghost function PrevMap(S: set<MapNode>): (m: map<MapNode, seq<MapNode>>)
    reads S`PreviousNodes
    ensures m.Keys == S && forall n :: n in S ==> m[n] == n.PreviousNodes
  {
    map n | n in S :: n.PreviousNodes
  }

  /** Linked, stated over snapshots of the two edge lists. */
  ghost predicate LinkedMaps(S: set<MapNode>, N: map<MapNode, seq<MapNode>>, P: map<MapNode, seq<MapNode>>)
    requires N.Keys == S && P.Keys == S
  {
    AllNoDup(S, N) && AllNoDup(S, P) && Mirrors(S, N, P) && Mirrors(S, P, N)
  }

  /** No list of the snapshot holds a node twice. */
  ghost predicate AllNoDup(S: set<MapNode>, N: map<MapNode, seq<MapNode>>)
    requires N.Keys == S
  {
    forall a :: a in S ==> NoDup(N[a])
  }

  /** Every entry b of a's list in N is in S and lists a in P. */
  ghost predicate Mirrors(S: set<MapNode>, N: map<MapNode, seq<MapNode>>, P: map<MapNode, seq<MapNode>>)
    requires N.Keys == S && P.Keys == S
  {
    forall a, b :: a in S && b in N[a] ==> b in S && a in P[b]
  }

  lemma LinkedIsLinkedMaps(S: set<MapNode>)
    ensures Linked(S) == LinkedMaps(S, NextMap(S), PrevMap(S))
  {
  }

  /** Lists that agree with a linked snapshot make S linked. */
  lemma LinkedFromMaps(S: set<MapNode>, N: map<MapNode, seq<MapNode>>, P: map<MapNode, seq<MapNode>>)
    requires N.Keys == S && P.Keys == S && LinkedMaps(S, N, P)
    requires forall n :: n in S ==> n.NextNodes == N[n] && n.PreviousNodes == P[n]
    ensures Linked(S)
  {
    assert NextMap(S) == N;
    assert PrevMap(S) == P;
    LinkedIsLinkedMaps(S);
  }

  /** Removing the edge a -> b from both snapshots keeps them mirrored. */
  lemma MapsAfterDisconnect(S: set<MapNode>, N: map<MapNode, seq<MapNode>>, P: map<MapNode, seq<MapNode>>,
                            a: MapNode, b: MapNode,
                            N': map<MapNode, seq<MapNode>>, P': map<MapNode, seq<MapNode>>)
    requires N.Keys == S && P.Keys == S && a in S && b in S
    requires LinkedMaps(S, N, P) && b in N[a]
    requires N' == N[a := RemoveFirst(N[a], b)] && P' == P[b := RemoveFirst(P[b], a)]
    ensures N'.Keys == S && P'.Keys == S && LinkedMaps(S, N', P')
  {
    NoDupAfterRemove(S, N, a, b, N');
    NoDupAfterRemove(S, P, b, a, P');
    MirrorAfterRemove(S, N, P, a, b, N', P');
    MirrorAfterRemove(S, P, N, b, a, P', N');
  }

  lemma NoDupAfterRemove(S: set<MapNode>, N: map<MapNode, seq<MapNode>>, a: MapNode, b: MapNode,
                         N': map<MapNode, seq<MapNode>>)
    requires N.Keys == S && a in S && AllNoDup(S, N)
    requires N' == N[a := RemoveFirst(N[a], b)]
    ensures N'.Keys == S && AllNoDup(S, N')
  {
    RemoveFirstNoDup(N[a], b);
  }

  /** One direction of the mirror survives removing a -> b from N and b -> a
      from P. */
  lemma MirrorAfterRemove(S: set<MapNode>, N: map<MapNode, seq<MapNode>>, P: map<MapNode, seq<MapNode>>,
                          a: MapNode, b: MapNode,
                          N': map<MapNode, seq<MapNode>>, P': map<MapNode, seq<MapNode>>)
    requires N.Keys == S && P.Keys == S && a in S && b in S && NoDup(N[a]) && NoDup(P[b])
    requires Mirrors(S, N, P)
    requires N' == N[a := RemoveFirst(N[a], b)] && P' == P[b := RemoveFirst(P[b], a)]
    ensures N'.Keys == S && P'.Keys == S && Mirrors(S, N', P')
  {
    RemoveFirstNoDup(N[a], b);
    RemoveFirstNoDup(P[b], a);
  }

  /** Fresh nodes without edges keep a linked set linked. */
  lemma LinkedAddIsolated(S: set<MapNode>, T: set<MapNode>)
    requires Linked(S)
    requires forall n :: n in T ==> n.NextNodes == [] && n.PreviousNodes == []
    ensures Linked(S + T)
  {
  }

  /** Disconnect undoes Connect: removing the element just appended restores
      the list, so Connect followed by Disconnect leaves both lists as they were. */
  lemma {:induction false} RemoveAppended<T>(s: seq<T>, x: T)
    requires x !in s
    ensures RemoveFirst(s + [x], x) == s
  {
    var t := s + [x];
    assert t[|s|] == x;
    assert x !in t[..|s|] by { assert t[..|s|] == s; }
    IndexOfIsFirst(t, x, |s|);
    assert t[..|s|] + t[|s| + 1..] == s;
  }

  /** The first position holding `x` is what IndexOf returns. */
  lemma IndexOfIsFirst<T>(s: seq<T>, x: T, k: nat)
    requires k < |s| && s[k] == x && x !in s[..k]
    ensures IndexOf(s, x) == k
  {
  }
}
