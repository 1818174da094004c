/** Assets/TempMapTest.cs: an earlier NodeMapGenerator. A floor is grown
    from the floor below with unbounded lane draws, crossing successors
    exchange their lanes, and nodes that land on the same space are merged
    into the first of them. */
module TempMapTest {
  import opened Lists
  import opened UnityMath
  import opened MapNodes
  import opened EdgeSets
  import MapGenerator

  const NumFloors := 10
  const FloorWidth := 6
  const SoftDesiredNumOfConnections := 5
  /** The number of earlier floors IsStraightPath is asked to look at. */
  const Lookback := 2
  /** The lanes of the two starting nodes: Mathf.FloorToInt(FloorWidth / 3)
      and Mathf.CeilToInt(2 * FloorWidth / 3), both over an integer
      quotient. */
  const StartY1 := FloorWidth / 3
  const StartY2 := 2 * FloorWidth / 3

  // ---------------------------------------------------------------------
  // RemoveDuplicates, on values: the first node of every space survives.
  // ---------------------------------------------------------------------

  /** The lanes of the nodes of F, as a value the node objects no longer
      affect. */
  ghost function LanesOf(F: set<MapNode>): (ys: map<MapNode, int>)
    reads F`Y
    ensures ys.Keys == F && forall n :: n in F ==> ys[n] == n.Y
  {
    map n | n in F :: n.Y
  }

  /** OccupiesSameSpace, with the lanes taken from ys. */
  predicate SameSpace(ys: map<MapNode, int>, a: MapNode, b: MapNode) {
    a in ys && b in ys && a.X == b.X && ys[a] == ys[b]
  }

  /** The nodes of s that are not on x's space, in their order. */
  function OtherSpaces(s: seq<MapNode>, x: MapNode, ys: map<MapNode, int>): (r: seq<MapNode>)
    ensures |r| <= |s|
  {
    if s == [] then []
    else (if SameSpace(ys, s[0], x) then [] else [s[0]]) + OtherSpaces(s[1..], x, ys)
  }

  /** The nodes of s that no earlier node of s shares a space with, in
      their order. */
  function Survivors(s: seq<MapNode>, ys: map<MapNode, int>): (r: seq<MapNode>)
    ensures |r| <= |s|
    decreases |s|
  {
    if s == [] then []
    else [s[0]] + Survivors(OtherSpaces(s[1..], s[0], ys), ys)
  }

  lemma {:induction false} OtherSpacesAppend(p: seq<MapNode>, q: seq<MapNode>, x: MapNode, ys: map<MapNode, int>)
    ensures OtherSpaces(p + q, x, ys) == OtherSpaces(p, x, ys) + OtherSpaces(q, x, ys)
    decreases |p|
  {
    if p != [] {
      assert (p + q)[1..] == p[1..] + q;
      OtherSpacesAppend(p[1..], q, x, ys);
    } else {
      assert p + q == q;
    }
  }

  /** No node of s is on x's space: nothing is dropped. */
  lemma {:induction false} OtherSpacesNone(s: seq<MapNode>, x: MapNode, ys: map<MapNode, int>)
    requires forall k :: 0 <= k < |s| ==> !SameSpace(ys, s[k], x)
    ensures OtherSpaces(s, x, ys) == s
    decreases |s|
  {
    if s != [] {
      OtherSpacesNone(s[1..], x, ys);
    }
  }

  /** Dropping a node on x's space does not change what survives x. */
  lemma OtherSpacesDrop(s: seq<MapNode>, j: nat, x: MapNode, ys: map<MapNode, int>)
    requires j < |s| && SameSpace(ys, s[j], x)
    ensures OtherSpaces(s[..j] + s[j + 1..], x, ys) == OtherSpaces(s, x, ys)
  {
    assert s == s[..j] + ([s[j]] + s[j + 1..]);
    OtherSpacesAppend(s[..j], [s[j]] + s[j + 1..], x, ys);
    OtherSpacesAppend([s[j]], s[j + 1..], x, ys);
    OtherSpacesAppend(s[..j], s[j + 1..], x, ys);
  }

  /** No entry of s before position k shares a space with s[k]. */
  predicate FirstOfSpace(s: seq<MapNode>, ys: map<MapNode, int>, k: int)
    requires 0 <= k < |s|
  {
    forall j :: 0 <= j < k ==> !SameSpace(ys, s[j], s[k])
  }

  predicate Increasing(idx: seq<int>) {
    forall a, b :: 0 <= a < b < |idx| ==> idx[a] < idx[b]
  }

  /** idx lists increasing positions of s that hold the entries of r. */
  ghost predicate PositionsOf<T>(s: seq<T>, r: seq<T>, idx: seq<int>) {
    |idx| == |r| && Increasing(idx)
    && forall t :: 0 <= t < |idx| ==> 0 <= idx[t] < |s| && s[idx[t]] == r[t]
  }

  /** Every position of s off x's space is listed in idx. */
  ghost predicate OffSpaceCovered(s: seq<MapNode>, x: MapNode, ys: map<MapNode, int>, idx: seq<int>) {
    forall j :: 0 <= j < |s| && !SameSpace(ys, s[j], x) ==> exists t :: 0 <= t < |idx| && idx[t] == j
  }

  /** idx is rest moved one position right, behind the head position 0 when d is 1. */
  ghost predicate Shifted(idx: seq<int>, rest: seq<int>, d: int) {
    0 <= d <= 1 && |idx| == d + |rest| && (d == 1 ==> idx[0] == 0)
    && forall t :: d <= t < |idx| ==> idx[t] == rest[t - d] + 1
  }

  /** rest moved one position right, behind a head position 0 when d is 1. */
  function Shift(rest: seq<int>, d: int): (idx: seq<int>)
    requires 0 <= d <= 1
    ensures Shifted(idx, rest, d)
  {
    var shifted := seq(|rest|, t requires 0 <= t < |rest| => rest[t] + 1);
    if d == 1 then [0] + shifted else shifted
  }

  lemma ShiftPositions<T>(s: seq<T>, r: seq<T>, r': seq<T>, rest: seq<int>, d: int, idx: seq<int>)
    requires |s| > 0 && PositionsOf(s[1..], r', rest) && Shifted(idx, rest, d)
    requires r == (if d == 1 then [s[0]] else []) + r'
    ensures PositionsOf(s, r, idx)
  {
    forall a, b | 0 <= a < b < |idx| ensures idx[a] < idx[b] {
      assert idx[b] == rest[b - d] + 1;
      if a >= d {
        assert idx[a] == rest[a - d] + 1;
      }
    }
    forall t | 0 <= t < |idx| ensures 0 <= idx[t] < |s| && s[idx[t]] == r[t] {
      if t >= d {
        assert r[t] == r'[t - d];
        assert s[idx[t]] == s[1..][rest[t - d]];
      }
    }
  }

  lemma ShiftCovered(s: seq<MapNode>, x: MapNode, ys: map<MapNode, int>, rest: seq<int>, d: int, idx: seq<int>)
    requires |s| > 0 && OffSpaceCovered(s[1..], x, ys, rest) && Shifted(idx, rest, d)
    requires d == 1 <==> !SameSpace(ys, s[0], x)
    ensures OffSpaceCovered(s, x, ys, idx)
  {
    forall j | 0 <= j < |s| && !SameSpace(ys, s[j], x) ensures exists t :: 0 <= t < |idx| && idx[t] == j {
      if j > 0 {
        assert s[1..][j - 1] == s[j];
        var u :| 0 <= u < |rest| && rest[u] == j - 1;
        assert idx[d + u] == j;
      } else {
        assert idx[0] == 0;
      }
    }
  }

  /** Nothing OtherSpaces keeps shares x's space. */
  lemma {:induction false} OtherSpacesOff(s: seq<MapNode>, x: MapNode, ys: map<MapNode, int>)
    ensures forall t :: 0 <= t < |OtherSpaces(s, x, ys)| ==> !SameSpace(ys, OtherSpaces(s, x, ys)[t], x)
  {
    if s != [] {
      OtherSpacesOff(s[1..], x, ys);
      var r := OtherSpaces(s, x, ys);
      var r' := OtherSpaces(s[1..], x, ys);
      var d := if SameSpace(ys, s[0], x) then 0 else 1;
      assert r == (if d == 1 then [s[0]] else []) + r';
      forall t | 0 <= t < |r| ensures !SameSpace(ys, r[t], x) {
        if t >= d {
          assert r[t] == r'[t - d] && 0 <= t - d < |r'|;
        }
      }
    }
  }

  /** OtherSpaces keeps, in order, exactly the positions of s off x's space. */
  lemma {:induction false} OtherSpacesPositions(s: seq<MapNode>, x: MapNode, ys: map<MapNode, int>)
    returns (idx: seq<int>)
    ensures PositionsOf(s, OtherSpaces(s, x, ys), idx) && OffSpaceCovered(s, x, ys, idx)
    decreases |s|
  {
    if s == [] {
      return [];
    }
    var rest := OtherSpacesPositions(s[1..], x, ys);
    var d := if SameSpace(ys, s[0], x) then 0 else 1;
    idx := Shift(rest, d);
    ShiftPositions(s, OtherSpaces(s, x, ys), OtherSpaces(s[1..], x, ys), rest, d, idx);
    ShiftCovered(s, x, ys, rest, d, idx);
  }

  /** Every position idx lists is a first occurrence of its space in s. */
  ghost predicate AllFirsts(s: seq<MapNode>, ys: map<MapNode, int>, idx: seq<int>) {
    forall t :: 0 <= t < |idx| && 0 <= idx[t] < |s| ==> FirstOfSpace(s, ys, idx[t])
  }

  /** Every first occurrence of a space in s is listed in idx. */
  ghost predicate FirstsCovered(s: seq<MapNode>, ys: map<MapNode, int>, idx: seq<int>) {
    forall k :: 0 <= k < |s| && FirstOfSpace(s, ys, k) ==> exists t :: 0 <= t < |idx| && idx[t] == k
  }

  /** Survivors keeps, in order, exactly the first node of every space: its
      entries sit at increasing positions of s, each a first occurrence,
      and every first occurrence is among them. */
  lemma {:induction false} SurvivorsPositions(s: seq<MapNode>, ys: map<MapNode, int>) returns (idx: seq<int>)
    ensures PositionsOf(s, Survivors(s, ys), idx) && AllFirsts(s, ys, idx) && FirstsCovered(s, ys, idx)
    decreases |s|
  {
    if s == [] {
      return [];
    }
    var O := OtherSpaces(s[1..], s[0], ys);
    var p := OtherSpacesPositions(s[1..], s[0], ys);
    OtherSpacesOff(s[1..], s[0], ys);
    var q := SurvivorsPositions(O, ys);
    idx := Compose(p, q);
    ComposePositions(s, Survivors(O, ys), O, p, q, idx);
    HeadFirsts(s, ys, p, q, idx);
    HeadFirstsCovered(s, ys, p, q, idx);
  }

  /** The head position 0, then the positions of s[1..] that p lists at
      the positions q lists, moved one right. */
  function Compose(p: seq<int>, q: seq<int>): (idx: seq<int>)
    requires forall t :: 0 <= t < |q| ==> 0 <= q[t] < |p|
    ensures |idx| == 1 + |q| && idx[0] == 0
    ensures forall t :: 0 <= t < |q| ==> idx[t + 1] == p[q[t]] + 1
  {
    [0] + seq(|q|, t requires 0 <= t < |q| => p[q[t]] + 1)
  }

  /** The positions SurvivorsPositions builds from those of its recursive
      call are first occurrences. */
  lemma HeadFirsts(s: seq<MapNode>, ys: map<MapNode, int>, p: seq<int>, q: seq<int>, idx: seq<int>)
    requires |s| > 0
    requires var O := OtherSpaces(s[1..], s[0], ys);
             PositionsOf(s[1..], O, p) && OffSpaceCovered(s[1..], s[0], ys, p)
             && (forall t :: 0 <= t < |O| ==> !SameSpace(ys, O[t], s[0]))
             && PositionsOf(O, Survivors(O, ys), q) && AllFirsts(O, ys, q)
    requires |idx| == 1 + |q| && idx[0] == 0
    requires forall t :: 0 <= t < |q| ==> 0 <= q[t] < |p| && idx[t + 1] == p[q[t]] + 1
    ensures AllFirsts(s, ys, idx)
  {
    var O := OtherSpaces(s[1..], s[0], ys);
    forall t | 0 <= t < |idx| && 0 <= idx[t] < |s| ensures FirstOfSpace(s, ys, idx[t]) {
      if t > 0 {
        var u := q[t - 1];
        assert 0 <= u < |O| && FirstOfSpace(O, ys, u) && !SameSpace(ys, O[u], s[0]);
        FirstAfterHead(s, ys, p, u);
        assert idx[t] == p[u] + 1;
      }
    }
  }

  /** Every first occurrence in s is among the positions SurvivorsPositions
      builds from those of its recursive call. */
  lemma HeadFirstsCovered(s: seq<MapNode>, ys: map<MapNode, int>, p: seq<int>, q: seq<int>, idx: seq<int>)
    requires |s| > 0
    requires var O := OtherSpaces(s[1..], s[0], ys);
             PositionsOf(s[1..], O, p) && OffSpaceCovered(s[1..], s[0], ys, p)
             && FirstsCovered(O, ys, q)
    requires |idx| == 1 + |q| && idx[0] == 0
    requires forall t :: 0 <= t < |q| ==> 0 <= q[t] < |p| && idx[t + 1] == p[q[t]] + 1
    ensures FirstsCovered(s, ys, idx)
  {
    forall k | 0 <= k < |s| && FirstOfSpace(s, ys, k) ensures exists t :: 0 <= t < |idx| && idx[t] == k {
      if k > 0 {
        var u := HeadlessFirst(s, ys, p, k);
        var t' :| 0 <= t' < |q| && q[t'] == u;
        assert idx[t' + 1] == k;
      } else {
        assert idx[0] == 0;
      }
    }
  }

  lemma ComposePositions<T>(s: seq<T>, r': seq<T>, O: seq<T>, p: seq<int>, q: seq<int>, idx: seq<int>)
    requires |s| > 0 && PositionsOf(s[1..], O, p) && PositionsOf(O, r', q)
    requires |idx| == 1 + |q| && idx[0] == 0
    requires forall t :: 0 <= t < |q| ==> 0 <= q[t] < |p| && idx[t + 1] == p[q[t]] + 1
    ensures PositionsOf(s, [s[0]] + r', idx)
  {
    var r := [s[0]] + r';
    forall a, b | 0 <= a < b < |idx| ensures idx[a] < idx[b] {
      assert idx[b] == p[q[b - 1]] + 1;
      if a > 0 {
        assert q[a - 1] < q[b - 1];
      }
    }
    forall t | 0 < t < |idx| ensures 0 <= idx[t] < |s| && s[idx[t]] == r[t] {
      assert r[t] == r'[t - 1] == O[q[t - 1]] == s[1..][p[q[t - 1]]];
    }
  }

  /** A first occurrence in OtherSpaces(s[1..], s[0]) is one in s; p gives
      the positions OtherSpaces keeps. */
  lemma FirstAfterHead(s: seq<MapNode>, ys: map<MapNode, int>, p: seq<int>, u: int)
    requires |s| > 0
    requires var O := OtherSpaces(s[1..], s[0], ys);
             PositionsOf(s[1..], O, p) && OffSpaceCovered(s[1..], s[0], ys, p)
             && 0 <= u < |O| && FirstOfSpace(O, ys, u) && !SameSpace(ys, O[u], s[0])
    ensures FirstOfSpace(s, ys, p[u] + 1)
  {
    var O := OtherSpaces(s[1..], s[0], ys);
    var K := p[u] + 1;
    assert s[K] == s[1..][p[u]] == O[u];
    forall j | 0 <= j < K ensures !SameSpace(ys, s[j], s[K]) {
      if j > 0 && !SameSpace(ys, s[j], s[0]) {
        assert s[1..][j - 1] == s[j];
        var m :| 0 <= m < |p| && p[m] == j - 1;
        assert m < u;
        assert O[m] == s[j];
      }
    }
  }

  /** A first occurrence s[k] after the head is kept by OtherSpaces(s[1..],
      s[0]) at a position u, and is a first occurrence there. */
  lemma HeadlessFirst(s: seq<MapNode>, ys: map<MapNode, int>, p: seq<int>, k: int) returns (u: int)
    requires 0 < k < |s| && FirstOfSpace(s, ys, k)
    requires var O := OtherSpaces(s[1..], s[0], ys);
             PositionsOf(s[1..], O, p) && OffSpaceCovered(s[1..], s[0], ys, p)
    ensures var O := OtherSpaces(s[1..], s[0], ys);
            0 <= u < |O| && p[u] == k - 1 && FirstOfSpace(O, ys, u)
  {
    var O := OtherSpaces(s[1..], s[0], ys);
    assert s[1..][k - 1] == s[k] && !SameSpace(ys, s[0], s[k]);
    u :| 0 <= u < |p| && p[u] == k - 1;
    forall m | 0 <= m < u ensures !SameSpace(ys, O[m], O[u]) {
      assert O[m] == s[1..][p[m]] == s[p[m] + 1];
      assert O[u] == s[k];
    }
  }

  /** No two survivors share a space. */
  lemma SurvivorsDistinct(s: seq<MapNode>, ys: map<MapNode, int>)
    ensures forall a, b :: 0 <= a < b < |Survivors(s, ys)| ==> !SameSpace(ys, Survivors(s, ys)[a], Survivors(s, ys)[b])
  {
    var idx := SurvivorsPositions(s, ys);
    var r := Survivors(s, ys);
    forall a, b | 0 <= a < b < |r| ensures !SameSpace(ys, r[a], r[b]) {
      assert FirstOfSpace(s, ys, idx[b]) && idx[a] < idx[b] && s[idx[a]] == r[a];
    }
  }

  // ---------------------------------------------------------------------
  // RemoveDuplicates, on the node objects.
  // ---------------------------------------------------------------------

  /** `if (!a.NextNodes.Contains(x)) a.Connect(x)`: afterwards a -> x is an
      edge and no other edge has changed. */
  method ConnectIfMissing(a: MapNode, x: MapNode, ghost S: set<MapNode>)
    requires Linked(S) && a in S && x in S
    modifies a`NextNodes, x`PreviousNodes
    ensures Linked(S) && Edges(S) == old(Edges(S)) + {(a, x)}
  {
    if x !in a.NextNodes {
      ConnectEdge(a, x, S);
    } else {
      EdgeIn(S, (a, x));
      Absorb(Edges(S), (a, x));
    }
  }

  /** Every entry of xs is a node of S. */
  ghost predicate Within(xs: seq<MapNode>, S: set<MapNode>) {
    forall k :: 0 <= k < |xs| ==> xs[k] in S
  }

  /** The first loop of a merge, over xs = b.NextNodes: every successor of b
      becomes one of a. */
  method TransferNext(a: MapNode, xs: seq<MapNode>, ghost S: set<MapNode>)
    requires Linked(S) && a in S && Within(xs, S)
    modifies a`NextNodes, NodesOf(xs)`PreviousNodes
    ensures Linked(S) && Edges(S) == old(Edges(S)) + EdgesFrom(a, xs, |xs|)
  {
    ghost var E0 := Edges(S);
    for t := 0 to |xs|
      invariant Linked(S) && Edges(S) == E0 + EdgesFrom(a, xs, t)
    {
      TransferNextStep(a, xs, t, S, E0);
    }
  }

  /** One pass of TransferNext: the edge a -> xs[t] is there afterwards. */
  method TransferNextStep(a: MapNode, xs: seq<MapNode>, t: int, ghost S: set<MapNode>, ghost E0: set<Edge>)
    requires Linked(S) && a in S && Within(xs, S) && 0 <= t < |xs|
    requires Edges(S) == E0 + EdgesFrom(a, xs, t)
    modifies a`NextNodes, {xs[t]}`PreviousNodes
    ensures Linked(S) && Edges(S) == E0 + EdgesFrom(a, xs, t + 1)
  {
    EdgesFromStep(a, xs, t);
    UnionStep(Edges(S), E0, EdgesFrom(a, xs, t), EdgesFrom(a, xs, t + 1), (a, xs[t]));
    ConnectIfMissing(a, xs[t], S);
  }

  /** The second loop of a merge, over ps = b.PreviousNodes: every
      predecessor of b becomes one of a. */
  method TransferPrev(ps: seq<MapNode>, a: MapNode, ghost S: set<MapNode>)
    requires Linked(S) && a in S && Within(ps, S)
    modifies NodesOf(ps)`NextNodes, a`PreviousNodes
    ensures Linked(S) && Edges(S) == old(Edges(S)) + EdgesTo(ps, a, |ps|)
  {
    ghost var E0 := Edges(S);
    for t := 0 to |ps|
      invariant Linked(S) && Edges(S) == E0 + EdgesTo(ps, a, t)
    {
      TransferPrevStep(ps, a, t, S, E0);
    }
  }

  /** One pass of TransferPrev: the edge ps[t] -> a is there afterwards. */
  method TransferPrevStep(ps: seq<MapNode>, a: MapNode, t: int, ghost S: set<MapNode>, ghost E0: set<Edge>)
    requires Linked(S) && a in S && Within(ps, S) && 0 <= t < |ps|
    requires Edges(S) == E0 + EdgesTo(ps, a, t)
    modifies {ps[t]}`NextNodes, a`PreviousNodes
    ensures Linked(S) && Edges(S) == E0 + EdgesTo(ps, a, t + 1)
  {
    EdgesToStep(ps, a, t);
    UnionStep(Edges(S), E0, EdgesTo(ps, a, t), EdgesTo(ps, a, t + 1), (ps[t], a));
    ConnectIfMissing(ps[t], a, S);
  }

  /** The third loop of a merge: b is disconnected from each of its
      successors xs, over a copy of the list. */
  method DetachNext(b: MapNode, xs: seq<MapNode>, ghost S: set<MapNode>)
    requires Linked(S) && b in S && Within(xs, S) && b.NextNodes == xs && NoDup(xs)
    modifies b`NextNodes, NodesOf(xs)`PreviousNodes
    ensures Linked(S) && b.NextNodes == []
    ensures Edges(S) == old(Edges(S)) - EdgesFrom(b, xs, |xs|)
  {
    ghost var E0 := Edges(S);
    for t := 0 to |xs|
      invariant Linked(S) && b.NextNodes == xs[t..]
      invariant Edges(S) == E0 - EdgesFrom(b, xs, t)
    {
      DetachNextStep(b, xs, t, S, E0);
    }
  }

  /** One pass of DetachNext: the edge b -> xs[t] goes. */
  method DetachNextStep(b: MapNode, xs: seq<MapNode>, t: int, ghost S: set<MapNode>, ghost E0: set<Edge>)
    requires Linked(S) && b in S && Within(xs, S) && 0 <= t < |xs| && b.NextNodes == xs[t..]
    requires Edges(S) == E0 - EdgesFrom(b, xs, t)
    modifies b`NextNodes, {xs[t]}`PreviousNodes
    ensures Linked(S) && b.NextNodes == xs[t + 1..]
    ensures Edges(S) == E0 - EdgesFrom(b, xs, t + 1)
  {
    EdgesFromStep(b, xs, t);
    DiffStep(Edges(S), E0, EdgesFrom(b, xs, t), EdgesFrom(b, xs, t + 1), (b, xs[t]));
    assert IndexOf(xs[t..], xs[t]) == 0;
    DisconnectEdge(b, xs[t], S);
  }

  /** The fourth loop of a merge: each predecessor in ps is disconnected
      from b, over a copy of the list. */
  method DetachPrev(ps: seq<MapNode>, b: MapNode, ghost S: set<MapNode>)
    requires Linked(S) && b in S && Within(ps, S) && b.PreviousNodes == ps && NoDup(ps)
    modifies NodesOf(ps)`NextNodes, b`PreviousNodes
    ensures Linked(S) && b.PreviousNodes == []
    ensures Edges(S) == old(Edges(S)) - EdgesTo(ps, b, |ps|)
  {
    ghost var E0 := Edges(S);
    for t := 0 to |ps|
      invariant Linked(S) && b.PreviousNodes == ps[t..]
      invariant Edges(S) == E0 - EdgesTo(ps, b, t)
    {
      DetachPrevStep(ps, b, t, S, E0);
    }
  }

  /** One pass of DetachPrev: the edge ps[t] -> b goes. */
  method DetachPrevStep(ps: seq<MapNode>, b: MapNode, t: int, ghost S: set<MapNode>, ghost E0: set<Edge>)
    requires Linked(S) && b in S && Within(ps, S) && 0 <= t < |ps| && b.PreviousNodes == ps[t..]
    requires Edges(S) == E0 - EdgesTo(ps, b, t)
    modifies {ps[t]}`NextNodes, b`PreviousNodes
    ensures Linked(S) && b.PreviousNodes == ps[t + 1..]
    ensures Edges(S) == E0 - EdgesTo(ps, b, t + 1)
  {
    EdgesToStep(ps, b, t);
    DiffStep(Edges(S), E0, EdgesTo(ps, b, t), EdgesTo(ps, b, t + 1), (ps[t], b));
    assert IndexOf(ps[t..], ps[t]) == 0;
    DisconnectEdge(ps[t], b, S);
  }

  /** The merge of TempMapTest.cs:143-169: b's successors and predecessors
      are moved to a, and b is detached from all of them; on the edge set
      that is renaming b to a. */
  method Merge(a: MapNode, b: MapNode, ghost S: set<MapNode>)
    requires Linked(S) && a in S && b in S && a != b
    requires (a, b) !in Edges(S) && (b, a) !in Edges(S) && (b, b) !in Edges(S)
    modifies S`NextNodes, S`PreviousNodes
    ensures Linked(S) && Edges(S) == RenameEdges(old(Edges(S)), b, a)
    ensures b.NextNodes == [] && b.PreviousNodes == []
  {
    ghost var E0 := Edges(S);
    var xs, ps := b.NextNodes, b.PreviousNodes;
    assert Within(xs, S) && Within(ps, S) && NoDup(xs) && NoDup(ps);
    assert b !in xs by { EdgeIn(S, (b, b)); }
    assert b !in ps;
    assert forall x :: (b, x) in E0 <==> x in xs by {
      forall x ensures (b, x) in E0 <==> x in xs { EdgeIn(S, (b, x)); }
    }
    assert forall p :: (p, b) in E0 <==> p in ps by {
      forall p ensures (p, b) in E0 <==> p in ps { EdgeIn(S, (p, b)); }
    }
    TransferNext(a, xs, S);
    TransferPrev(ps, a, S);
    DetachNext(b, xs, S);
    DetachPrev(ps, b, S);
    MergeIsRename(E0, a, b, xs, ps);
  }

  /** rho sends every node of F that has left the list L to a node among
      the first n of L on the same space. */
  ghost predicate MergedInto(rho: map<MapNode, MapNode>, F: set<MapNode>, L: seq<MapNode>, n: int,
                             ys: map<MapNode, int>)
    requires 0 <= n <= |L|
  {
    rho.Keys == F - NodesOf(L)
    && forall k :: k in rho ==> rho[k] in L[..n] && SameSpace(ys, rho[k], k)
  }

  /** The state both loops of RemoveDuplicates keep: the edges are the
      original ones renamed by rho, still none joins two nodes of F, and the
      lanes are those of ys. */
  ghost predicate EdgesRenamed(S: set<MapNode>, E0: set<Edge>, rho: map<MapNode, MapNode>, F: set<MapNode>)
    reads S`NextNodes, S`PreviousNodes
  {
    Linked(S) && Edges(S) == RenameEdgesBy(E0, rho) && NoEdgeWithin(Edges(S), F)
  }

  /** RemoveDuplicates (TempMapTest.cs:126-180). The floor's nodes are
      distinct and no edge joins two of them (true of every floor
      GenerateMap builds). The result keeps the first node of every space in
      order; each later node on the same space is merged into it, which
      renames it to the survivor on the edge set, and leaves the list. */
  method RemoveDuplicates(currentFloor: seq<MapNode>, ghost S: set<MapNode>)
    returns (floor: seq<MapNode>, ghost rho: map<MapNode, MapNode>)
    requires NoDup(currentFloor) && Within(currentFloor, S) && Linked(S)
    requires NoEdgeWithin(Edges(S), NodesOf(currentFloor))
    modifies S`NextNodes, S`PreviousNodes
    ensures floor == Survivors(currentFloor, LanesOf(NodesOf(currentFloor)))
    ensures Linked(S) && Edges(S) == RenameEdgesBy(old(Edges(S)), rho)
    ensures MergedInto(rho, NodesOf(currentFloor), floor, |floor|, LanesOf(NodesOf(currentFloor)))
    ensures forall k :: k in rho ==> k.NextNodes == [] && k.PreviousNodes == []
    ensures forall n, k :: n in S && k in rho ==> k !in n.NextNodes && k !in n.PreviousNodes
    ensures forall k, x :: k in rho && (k, x) in old(Edges(S)) ==> x in rho[k].NextNodes
    ensures forall k, p :: k in rho && (p, k) in old(Edges(S)) ==> p in rho[k].PreviousNodes
    ensures forall e :: e in old(Edges(S)) && e.0 !in rho && e.1 !in rho ==> e in Edges(S)
  {
    ghost var F, E0 := NodesOf(currentFloor), Edges(S);
    ghost var ys := LanesOf(F);
    ghost var survivors := Survivors(currentFloor, ys);
    var L := currentFloor;
    rho := map[];
    RenameNone(E0);
    var processedNodes: set<MapNode> := {};
    var i := 0;
    while i < |L|
      invariant 0 <= i <= |L| && NoDup(L) && NodesOf(L) <= F && F <= S && LanesOf(F) == ys
      invariant survivors == L[..i] + Survivors(L[i..], ys)
      invariant processedNodes == NodesOf(L[..i])
      invariant EdgesRenamed(S, E0, rho, F) && MergedInto(rho, F, L, i, ys)
      decreases |L| - i
    {
      L, rho, processedNodes := Settle(L, i, processedNodes, S, E0, rho, F, ys, survivors);
      i := i + 1;
    }
    floor := L;
    MergedNodesDetached(S, E0, rho, F, floor, ys);
  }

  /** At the end of RemoveDuplicates: the merged nodes have no edges left
      and nobody lists them, each survivor has every successor and every
      predecessor of the nodes merged into it, and every edge away from the
      merged nodes is still there. */
  lemma MergedNodesDetached(S: set<MapNode>, E0: set<Edge>, rho: map<MapNode, MapNode>, F: set<MapNode>,
                            floor: seq<MapNode>, ys: map<MapNode, int>)
    requires F <= S && NoEdgeWithin(E0, F) && EdgesRenamed(S, E0, rho, F)
    requires MergedInto(rho, F, floor, |floor|, ys)
    ensures forall k :: k in rho ==> k.NextNodes == [] && k.PreviousNodes == []
    ensures forall n, k :: n in S && k in rho ==> k !in n.NextNodes && k !in n.PreviousNodes
    ensures forall k, x :: k in rho && (k, x) in E0 ==> x in rho[k].NextNodes
    ensures forall k, p :: k in rho && (p, k) in E0 ==> p in rho[k].PreviousNodes
    ensures forall e :: e in E0 && e.0 !in rho && e.1 !in rho ==> e in Edges(S)
  {
    RenamedAvoidsKeys(E0, rho);
    RenamedEdgesMove(E0, rho, F);
    forall k | k in rho ensures k.NextNodes == [] && k.PreviousNodes == [] {
      assert k in S;
      forall x ensures x !in k.NextNodes && x !in k.PreviousNodes {
        EdgeIn(S, (k, x));
        EdgeIn(S, (x, k));
      }
      NoDupBound(k.NextNodes, []);
      NoDupBound(k.PreviousNodes, []);
    }
    forall k, x | k in rho && (k, x) in E0 ensures x in rho[k].NextNodes {
      EdgeIn(S, (rho[k], x));
    }
    forall k, p | k in rho && (p, k) in E0 ensures p in rho[k].PreviousNodes {
      EdgeIn(S, (p, rho[k]));
    }
  }

  /** One pass of the outer loop of RemoveDuplicates: L[i] is not yet
      processed, every later node on its space is merged into it, and it is
      marked processed. */
  method Settle(L0: seq<MapNode>, i: int, processed0: set<MapNode>, ghost S: set<MapNode>, ghost E0: set<Edge>,
                ghost rho0: map<MapNode, MapNode>, ghost F: set<MapNode>, ghost ys: map<MapNode, int>,
                ghost survivors: seq<MapNode>)
    returns (L: seq<MapNode>, ghost rho: map<MapNode, MapNode>, processed: set<MapNode>)
    requires 0 <= i < |L0| && NoDup(L0) && NodesOf(L0) <= F && F <= S && LanesOf(F) == ys
    requires survivors == L0[..i] + Survivors(L0[i..], ys)
    requires processed0 == NodesOf(L0[..i])
    requires EdgesRenamed(S, E0, rho0, F) && MergedInto(rho0, F, L0, i, ys)
    modifies S`NextNodes, S`PreviousNodes
    ensures i < |L| <= |L0| && NoDup(L) && NodesOf(L) <= F && LanesOf(F) == ys
    ensures survivors == L[..i + 1] + Survivors(L[i + 1..], ys)
    ensures processed == NodesOf(L[..i + 1])
    ensures EdgesRenamed(S, E0, rho, F) && MergedInto(rho, F, L, i + 1, ys)
  {
    var nodeA := L0[i];
    // The list is duplicate-free, so the skip of processed nodes never fires.
    assert nodeA !in processed0;
    L, rho := MergeSameSpace(L0, i, S, E0, rho0, F, ys);
    SurvivorsStep(L0, L, i, ys);
    processed := processed0 + {nodeA};
    assert L[..i + 1] == L0[..i] + [nodeA];
  }

  /** After the inner loop for position i, the survivors of the list are
      unchanged and position i is settled. */
  lemma SurvivorsStep(L: seq<MapNode>, L': seq<MapNode>, i: int, ys: map<MapNode, int>)
    requires 0 <= i < |L| && i < |L'| && L'[..i + 1] == L[..i + 1]
    requires L'[i + 1..] == OtherSpaces(L[i + 1..], L[i], ys)
    ensures L[..i] + Survivors(L[i..], ys) == L'[..i + 1] + Survivors(L'[i + 1..], ys)
  {
    var t := L[i..];
    assert t[0] == L[i] && t[1..] == L[i + 1..];
    assert L'[..i + 1] == L[..i] + [L[i]];
  }

  /** The inner loop of RemoveDuplicates: every later node on L[i]'s space
      is merged into it and removed from the list. */
  method MergeSameSpace(L0: seq<MapNode>, i: int, ghost S: set<MapNode>, ghost E0: set<Edge>,
                        ghost rho0: map<MapNode, MapNode>, ghost F: set<MapNode>, ghost ys: map<MapNode, int>)
    returns (L: seq<MapNode>, ghost rho: map<MapNode, MapNode>)
    requires 0 <= i < |L0| && NoDup(L0) && NodesOf(L0) <= F && F <= S && LanesOf(F) == ys
    requires EdgesRenamed(S, E0, rho0, F) && MergedInto(rho0, F, L0, i, ys)
    modifies S`NextNodes, S`PreviousNodes
    ensures i < |L| <= |L0| && NoDup(L) && NodesOf(L) <= F && L[..i + 1] == L0[..i + 1] && LanesOf(F) == ys
    ensures L[i + 1..] == OtherSpaces(L0[i + 1..], L0[i], ys)
    ensures EdgesRenamed(S, E0, rho, F) && MergedInto(rho, F, L, i + 1, ys)
  {
    var nodeA := L0[i];
    L, rho := L0, rho0;
    ghost var others := OtherSpaces(L0[i + 1..], nodeA, ys);
    var j := i + 1;
    while j < |L|
      invariant i < j <= |L| && NoDup(L) && NodesOf(L) <= F && L[..i + 1] == L0[..i + 1] && L[i] == nodeA
      invariant OtherSpaces(L[i + 1..], nodeA, ys) == others && LanesOf(F) == ys
      invariant forall k :: i < k < j ==> !SameSpace(ys, L[k], nodeA)
      invariant EdgesRenamed(S, E0, rho, F) && MergedInto(rho, F, L, i + 1, ys)
      decreases |L| - j
    {
      L, rho, j := MergeOrSkip(L, i, j, S, E0, rho, F, ys, others);
    }
    OtherSpacesNone(L[i + 1..], nodeA, ys);
  }

  /** One pass of the inner loop: L[j] is merged into L[i] when the two
      occupy the same space, and passed over otherwise. */
  method MergeOrSkip(L0: seq<MapNode>, i: int, j0: int, ghost S: set<MapNode>, ghost E0: set<Edge>,
                     ghost rho0: map<MapNode, MapNode>, ghost F: set<MapNode>, ghost ys: map<MapNode, int>,
                     ghost others: seq<MapNode>)
    returns (L: seq<MapNode>, ghost rho: map<MapNode, MapNode>, j: int)
    requires 0 <= i < j0 < |L0| && NoDup(L0) && NodesOf(L0) <= F && F <= S && LanesOf(F) == ys
    requires OtherSpaces(L0[i + 1..], L0[i], ys) == others
    requires forall k :: i < k < j0 ==> !SameSpace(ys, L0[k], L0[i])
    requires EdgesRenamed(S, E0, rho0, F) && MergedInto(rho0, F, L0, i + 1, ys)
    modifies S`NextNodes, S`PreviousNodes
    ensures i < j <= |L| && NoDup(L) && NodesOf(L) <= F && L[..i + 1] == L0[..i + 1] && L[i] == L0[i]
    ensures |L| - j < |L0| - j0 && LanesOf(F) == ys
    ensures OtherSpaces(L[i + 1..], L0[i], ys) == others
    ensures forall k :: i < k < j ==> !SameSpace(ys, L[k], L0[i])
    ensures EdgesRenamed(S, E0, rho, F) && MergedInto(rho, F, L, i + 1, ys)
  {
    var nodeA, nodeB := L0[i], L0[j0];
    assert nodeA in F && nodeB in F;
    if nodeA.OccupiesSameSpace(nodeB) {
      L, rho := MergeAt(L0, i, j0, S, E0, rho0, F, ys);
      j := j0;
    } else {
      L, rho, j := L0, rho0, j0 + 1;
    }
  }

  /** One merge of the inner loop: L[j], on L[i]'s space, is merged into
      L[i] and removed from the list (RemoveAt(j); j--). */
  method MergeAt(L0: seq<MapNode>, i: int, j: int, ghost S: set<MapNode>, ghost E0: set<Edge>,
                 ghost rho0: map<MapNode, MapNode>, ghost F: set<MapNode>, ghost ys: map<MapNode, int>)
    returns (L: seq<MapNode>, ghost rho: map<MapNode, MapNode>)
    requires 0 <= i < j < |L0| && NoDup(L0) && NodesOf(L0) <= F && F <= S
    requires SameSpace(ys, L0[j], L0[i])
    requires EdgesRenamed(S, E0, rho0, F) && MergedInto(rho0, F, L0, i + 1, ys)
    modifies S`NextNodes, S`PreviousNodes
    ensures L == L0[..j] + L0[j + 1..] && NoDup(L) && NodesOf(L) <= F
    ensures L[..i + 1] == L0[..i + 1] && L[i] == L0[i]
    ensures OtherSpaces(L[i + 1..], L0[i], ys) == OtherSpaces(L0[i + 1..], L0[i], ys)
    ensures EdgesRenamed(S, E0, rho, F) && MergedInto(rho, F, L, i + 1, ys)
  {
    var nodeA, nodeB := L0[i], L0[j];
    ghost var E := Edges(S);
    assert nodeA in F && nodeB in F;
    Merge(nodeA, nodeB, S);
    L := L0[..j] + L0[j + 1..];
    rho := rho0[nodeB := nodeA];
    MergeAtFacts(L0, i, j, E0, rho0, F, ys, E);
  }

  /** The bookkeeping of MergeAt, on values: the list without L0[j], the
      renaming extended with L0[j] := L0[i], and the renamed edge set. */
  lemma MergeAtFacts(L0: seq<MapNode>, i: int, j: int, E0: set<Edge>, rho0: map<MapNode, MapNode>,
                     F: set<MapNode>, ys: map<MapNode, int>, E: set<Edge>)
    requires 0 <= i < j < |L0| && NoDup(L0) && NodesOf(L0) <= F
    requires SameSpace(ys, L0[j], L0[i])
    requires E == RenameEdgesBy(E0, rho0) && NoEdgeWithin(E, F) && MergedInto(rho0, F, L0, i + 1, ys)
    ensures var L, rho, a, b := L0[..j] + L0[j + 1..], rho0[L0[j] := L0[i]], L0[i], L0[j];
            NoDup(L) && NodesOf(L) <= F && L[..i + 1] == L0[..i + 1] && L[i] == L0[i]
            && OtherSpaces(L[i + 1..], a, ys) == OtherSpaces(L0[i + 1..], a, ys)
            && RenameEdges(E, b, a) == RenameEdgesBy(E0, rho)
            && NoEdgeWithin(RenameEdges(E, b, a), F) && MergedInto(rho, F, L, i + 1, ys)
  {
    var a, b := L0[i], L0[j];
    var L := L0[..j] + L0[j + 1..];
    assert a in F && b in F;
    assert forall k :: k in rho0 ==> rho0[k] != b by {
      forall k | k in rho0 ensures rho0[k] != b {
        var t :| 0 <= t < i + 1 && L0[t] == rho0[k];
      }
    }
    RenameCompose(E0, rho0, b, a);
    RenameKeepsNoEdgeWithin(E, F, b, a);
    DeleteAtNoDup(L0, j);
    assert L[..i + 1] == L0[..i + 1];
    var tail := L0[i + 1..];
    assert L[i + 1..] == tail[..j - i - 1] + tail[j - i..];
    OtherSpacesDrop(tail, j - i - 1, a, ys);
  }

  // ---------------------------------------------------------------------
  // CorrectPaths: crossing successors exchange their lanes.
  // ---------------------------------------------------------------------

  /** The lanes of the nodes of s, in order. */
  ghost function LaneList(s: seq<MapNode>): (r: seq<int>)
    reads NodesOf(s)`Y
    ensures |r| == |s| && forall k :: 0 <= k < |s| ==> r[k] == s[k].Y
  {
    if s == [] then [] else [s[0].Y] + LaneList(s[1..])
  }

  // CorrectPaths on a lane snapshot L: the four nested foreach loops of
  // TempMapTest.cs:99-124 as folds, each over a prefix of its list, so that
  // every loop's invariant is the fold of the prefix it has done.

  /** The lane L gives n; 0 for a node L does not hold. */
  function Lane(L: map<MapNode, int>, n: MapNode): int {
    if n in L then L[n] else 0
  }

  /** The successor list N gives n; empty for a node N does not hold. */
  function Succ(N: map<MapNode, seq<MapNode>>, n: MapNode): seq<MapNode> {
    if n in N then N[n] else []
  }

  /** The innermost body: when p lies on lane laneB and q on lane laneA, p and q
      exchange their lanes. */
  function CrossSwap(L: map<MapNode, int>, laneA: int, laneB: int, p: MapNode, q: MapNode): (r: map<MapNode, int>)
    ensures r.Keys == L.Keys
  {
    if p in L && q in L && L[p] == laneB && L[q] == laneA then L[p := L[q]][q := L[p]] else L
  }

  /** The foreach over nodeB's successors qs, for nextA = p: the lanes of a
      and b are read again before every step. */
  function CellPass(L: map<MapNode, int>, a: MapNode, b: MapNode, p: MapNode, qs: seq<MapNode>): (r: map<MapNode, int>)
    ensures r.Keys == L.Keys
    decreases |qs|
  {
    if qs == [] then L
    else
      var L' := CellPass(L, a, b, p, qs[..|qs| - 1]);
      CrossSwap(L', Lane(L', a), Lane(L', b), p, qs[|qs| - 1])
  }

  /** The foreach over nodeA's successors ps, for one pair of bases. */
  function PairPass(L: map<MapNode, int>, a: MapNode, b: MapNode, ps: seq<MapNode>, qs: seq<MapNode>): (r: map<MapNode, int>)
    ensures r.Keys == L.Keys
    decreases |ps|
  {
    if ps == [] then L
    else CellPass(PairPass(L, a, b, ps[..|ps| - 1], qs), a, b, ps[|ps| - 1], qs)
  }

  /** The foreach over nodeB in bs, for nodeA = a: a base equal to a, or more
      than one lane away from it at that point, is skipped. */
  function FromPass(L: map<MapNode, int>, a: MapNode, bs: seq<MapNode>, N: map<MapNode, seq<MapNode>>): (r: map<MapNode, int>)
    ensures r.Keys == L.Keys
    decreases |bs|
  {
    if bs == [] then L
    else
      var L' := FromPass(L, a, bs[..|bs| - 1], N);
      var b := bs[|bs| - 1];
      if a == b || Abs(Lane(L', a) - Lane(L', b)) > 1 then L'
      else PairPass(L', a, b, Succ(N, a), Succ(N, b))
  }

  /** The outer foreach over nodeA in nodesA, each pass going over every
      base in bs. */
  function PathsPass(L: map<MapNode, int>, nodesA: seq<MapNode>, bs: seq<MapNode>, N: map<MapNode, seq<MapNode>>): (r: map<MapNode, int>)
    ensures r.Keys == L.Keys
    decreases |nodesA|
  {
    if nodesA == [] then L else FromPass(PathsPass(L, nodesA[..|nodesA| - 1], bs, N), nodesA[|nodesA| - 1], bs, N)
  }

  /** The lanes L gives the nodes of C, in order. */
  function LanesAlong(C: seq<MapNode>, L: map<MapNode, int>): (r: seq<int>)
    ensures |r| == |C| && forall k :: 0 <= k < |C| ==> r[k] == Lane(L, C[k])
  {
    seq(|C|, k requires 0 <= k < |C| => Lane(L, C[k]))
  }

  /** Every successor N records lies on C. */
  predicate SuccIn(N: map<MapNode, seq<MapNode>>, C: seq<MapNode>) {
    forall n, m :: n in N && m in N[n] ==> m in C
  }

  /** From L to L' lanes only move among the nodes of C: the multiset of
      their lanes is the same, and no other node's lane changes. */
  predicate PermutedOn(C: seq<MapNode>, L: map<MapNode, int>, L': map<MapNode, int>) {
    L'.Keys == L.Keys
    && multiset(LanesAlong(C, L')) == multiset(LanesAlong(C, L))
    && forall n :: n in L && n !in C ==> L'[n] == L[n]
  }

  /** Exchanging two entries of a sequence keeps its multiset. */
  lemma SwapMultiset(s: seq<int>, i: int, j: int)
    requires 0 <= i < |s| && 0 <= j < |s|
    ensures multiset(s[i := s[j]][j := s[i]]) == multiset(s)
  {
    if i != j {
      var t := s[i := s[j]];
      assert multiset(t) == multiset(s) - multiset{s[i]} + multiset{s[j]};
      assert multiset(t[j := s[i]]) == multiset(t) - multiset{s[j]} + multiset{s[i]};
    }
  }

  /** One exchange between two nodes of C permutes the lanes on C. */
  lemma CrossSwapPermutes(C: seq<MapNode>, L: map<MapNode, int>, laneA: int, laneB: int, p: MapNode, q: MapNode)
    requires NoDup(C) && p in C && q in C
    ensures PermutedOn(C, L, CrossSwap(L, laneA, laneB, p, q))
  {
    var r := CrossSwap(L, laneA, laneB, p, q);
    if p in L && q in L && L[p] == laneB && L[q] == laneA {
      if p == q {
        assert r == L;
      } else {
        var i, j := IndexOf(C, p), IndexOf(C, q);
        var s := LanesAlong(C, L);
        forall k | 0 <= k < |C| ensures LanesAlong(C, r)[k] == s[i := s[j]][j := s[i]][k] {
          if k != i && k != j {
            assert C[k] != p && C[k] != q;
          }
        }
        assert LanesAlong(C, r) == s[i := s[j]][j := s[i]];
        SwapMultiset(s, i, j);
      }
    }
  }

  lemma {:induction false} CellPassPermutes(C: seq<MapNode>, L: map<MapNode, int>, a: MapNode, b: MapNode,
                                            p: MapNode, qs: seq<MapNode>)
    requires NoDup(C) && p in C && forall q :: q in qs ==> q in C
    ensures PermutedOn(C, L, CellPass(L, a, b, p, qs))
    decreases |qs|
  {
    if qs != [] {
      var front := qs[..|qs| - 1];
      assert forall q :: q in front ==> q in qs;
      var L' := CellPass(L, a, b, p, front);
      CellPassPermutes(C, L, a, b, p, front);
      CrossSwapPermutes(C, L', Lane(L', a), Lane(L', b), p, qs[|qs| - 1]);
    }
  }

  lemma {:induction false} PairPassPermutes(C: seq<MapNode>, L: map<MapNode, int>, a: MapNode, b: MapNode,
                                            ps: seq<MapNode>, qs: seq<MapNode>)
    requires NoDup(C) && (forall p :: p in ps ==> p in C) && forall q :: q in qs ==> q in C
    ensures PermutedOn(C, L, PairPass(L, a, b, ps, qs))
    decreases |ps|
  {
    if ps != [] {
      var front := ps[..|ps| - 1];
      assert forall p :: p in front ==> p in ps;
      PairPassPermutes(C, L, a, b, front, qs);
      CellPassPermutes(C, PairPass(L, a, b, front, qs), a, b, ps[|ps| - 1], qs);
    }
  }

  lemma {:induction false} FromPassPermutes(C: seq<MapNode>, L: map<MapNode, int>, a: MapNode, bs: seq<MapNode>,
                                            N: map<MapNode, seq<MapNode>>)
    requires NoDup(C) && SuccIn(N, C)
    ensures PermutedOn(C, L, FromPass(L, a, bs, N))
    decreases |bs|
  {
    if bs != [] {
      var L' := FromPass(L, a, bs[..|bs| - 1], N);
      var b := bs[|bs| - 1];
      FromPassPermutes(C, L, a, bs[..|bs| - 1], N);
      if !(a == b || Abs(Lane(L', a) - Lane(L', b)) > 1) {
        PairPassPermutes(C, L', a, b, Succ(N, a), Succ(N, b));
      }
    }
  }

  /** The whole of CorrectPaths only moves lanes among the successors' floor
      C: their multiset is kept and every other lane stays as it was. */
  lemma {:induction false} PathsPassPermutes(C: seq<MapNode>, L: map<MapNode, int>, nodesA: seq<MapNode>,
                                             bs: seq<MapNode>, N: map<MapNode, seq<MapNode>>)
    requires NoDup(C) && SuccIn(N, C)
    ensures PermutedOn(C, L, PathsPass(L, nodesA, bs, N))
    decreases |nodesA|
  {
    if nodesA != [] {
      PathsPassPermutes(C, L, nodesA[..|nodesA| - 1], bs, N);
      FromPassPermutes(C, PathsPass(L, nodesA[..|nodesA| - 1], bs, N), nodesA[|nodesA| - 1], bs, N);
    }
  }

  /** The body of the innermost loop: when nextA ends on nodeB's lane and
      nextB on nodeA's, the two successors exchange lanes. Seen through the
      lanes of any set S holding both, this is CrossSwap; the lanes of the
      floor holding them keep their multiset. */
  method SwapIfCrossing(nodeAY: int, nodeBY: int, nextA: MapNode, nextB: MapNode,
                        ghost floor: seq<MapNode>, ghost S: set<MapNode>)
    requires nextA in floor && nextB in floor && NoDup(floor) && nextA in S && nextB in S
    modifies nextA`Y, nextB`Y
    ensures var crossing := old(nextA.Y) == nodeBY && old(nextB.Y) == nodeAY;
            nextA.Y == (if crossing then old(nextB.Y) else old(nextA.Y))
            && nextB.Y == (if crossing then old(nextA.Y) else old(nextB.Y))
    ensures LanesOf(S) == CrossSwap(old(LanesOf(S)), nodeAY, nodeBY, nextA, nextB)
    ensures multiset(LaneList(floor)) == old(multiset(LaneList(floor)))
  {
    ghost var before := LaneList(floor);
    ghost var L0 := LanesOf(S);
    if nextA.Y == nodeBY && nextB.Y == nodeAY {
      var tempY := nextA.Y;
      nextA.Y := nextB.Y;
      nextB.Y := tempY;
      ghost var i, j := IndexOf(floor, nextA), IndexOf(floor, nextB);
      ghost var swapped := before[i := before[j]][j := before[i]];
      ghost var after := LaneList(floor);
      forall k | 0 <= k < |floor| ensures after[k] == swapped[k] {
        if k != i && k != j {
          assert floor[k] != nextA && floor[k] != nextB;
        }
      }
      assert after == swapped;
      SwapMultiset(before, i, j);
      SwappedSnapshot(L0, LanesOf(S), nodeAY, nodeBY, nextA, nextB);
    }
  }

  /** A snapshot L1 that differs from L0 only in p and q, which have
      exchanged their crossing lanes, is CrossSwap of L0. */
  lemma SwappedSnapshot(L0: map<MapNode, int>, L1: map<MapNode, int>, laneA: int, laneB: int, p: MapNode, q: MapNode)
    requires L1.Keys == L0.Keys && p in L0 && q in L0 && L0[p] == laneB && L0[q] == laneA
    requires L1[p] == L0[q] && L1[q] == L0[p]
    requires forall n :: n in L0 && n != p && n != q ==> L1[n] == L0[n]
    ensures L1 == CrossSwap(L0, laneA, laneB, p, q)
  {
    var expected := CrossSwap(L0, laneA, laneB, p, q);
    forall n | n in L0 ensures L1[n] == expected[n] {
    }
  }

  /** Every successor of every node of nodes lies on floor. */
  ghost predicate SuccessorsOn(nodes: seq<MapNode>, floor: seq<MapNode>)
    reads NodesOf(nodes)`NextNodes
  {
    forall i, k :: 0 <= i < |nodes| && 0 <= k < |nodes[i].NextNodes| ==> nodes[i].NextNodes[k] in floor
  }

  /** The successor snapshot of bases whose successors lie on floor records
      only nodes of floor. */
  lemma SuccessorsSnapshot(nodes: seq<MapNode>, floor: seq<MapNode>)
    requires SuccessorsOn(nodes, floor)
    ensures SuccIn(NextMap(NodesOf(nodes)), floor)
  {
    var N := NextMap(NodesOf(nodes));
    forall n, m | n in N && m in N[n] ensures m in floor {
      var i :| 0 <= i < |nodes| && nodes[i] == n;
      var k :| 0 <= k < |n.NextNodes| && n.NextNodes[k] == m;
    }
  }

  /** The foreach over nodeB.NextNodes, for one nextA. */
  method CorrectCell(nodeA: MapNode, nodeB: MapNode, nextA: MapNode, ghost floor: seq<MapNode>, ghost S: set<MapNode>)
    requires SuccessorsOn([nodeB], floor) && nextA in floor && NoDup(floor)
    requires NodesOf(floor) <= S && nodeA in S && nodeB in S
    modifies NodesOf(floor)`Y
    ensures LanesOf(S) == CellPass(old(LanesOf(S)), nodeA, nodeB, nextA, nodeB.NextNodes)
  {
    ghost var L0 := LanesOf(S);
    for b := 0 to |nodeB.NextNodes|
      invariant LanesOf(S) == CellPass(L0, nodeA, nodeB, nextA, nodeB.NextNodes[..b])
    {
      ghost var L := LanesOf(S);
      var nextB := nodeB.NextNodes[b];
      assert nextB in floor by { assert [nodeB][0] == nodeB; }
      assert nodeA.Y == Lane(L, nodeA) && nodeB.Y == Lane(L, nodeB);
      assert nodeB.NextNodes[..b + 1][..b] == nodeB.NextNodes[..b];
      assert CellPass(L0, nodeA, nodeB, nextA, nodeB.NextNodes[..b + 1])
          == CrossSwap(L, Lane(L, nodeA), Lane(L, nodeB), nextA, nextB);
      SwapIfCrossing(nodeA.Y, nodeB.Y, nextA, nextB, floor, S);
    }
    assert nodeB.NextNodes[..|nodeB.NextNodes|] == nodeB.NextNodes;
  }

  /** The foreach over nodeA.NextNodes, for one pair of base nodes. */
  method CorrectPair(nodeA: MapNode, nodeB: MapNode, ghost floor: seq<MapNode>, ghost S: set<MapNode>)
    requires SuccessorsOn([nodeA, nodeB], floor) && NoDup(floor)
    requires NodesOf(floor) <= S && nodeA in S && nodeB in S
    modifies NodesOf(floor)`Y
    ensures LanesOf(S) == PairPass(old(LanesOf(S)), nodeA, nodeB, nodeA.NextNodes, nodeB.NextNodes)
  {
    ghost var L0 := LanesOf(S);
    for a := 0 to |nodeA.NextNodes|
      invariant LanesOf(S) == PairPass(L0, nodeA, nodeB, nodeA.NextNodes[..a], nodeB.NextNodes)
    {
      assert [nodeA, nodeB][0] == nodeA && [nodeA, nodeB][1] == nodeB;
      assert SuccessorsOn([nodeB], floor);
      assert nodeA.NextNodes[..a + 1][..a] == nodeA.NextNodes[..a];
      CorrectCell(nodeA, nodeB, nodeA.NextNodes[a], floor, S);
    }
    assert nodeA.NextNodes[..|nodeA.NextNodes|] == nodeA.NextNodes;
  }

  /** The foreach over nodeB, for one nodeA, with its `continue` on equal
      base nodes or base nodes more than one lane apart. */
  method CorrectFrom(nodeA: MapNode, previousFloor: seq<MapNode>, ghost floor: seq<MapNode>, ghost S: set<MapNode>)
    requires nodeA in previousFloor && SuccessorsOn(previousFloor, floor) && NoDup(floor)
    requires NodesOf(floor) <= S && NodesOf(previousFloor) <= S
    modifies NodesOf(floor)`Y
    ensures LanesOf(S) == FromPass(old(LanesOf(S)), nodeA, previousFloor, NextMap(NodesOf(previousFloor)))
  {
    ghost var L0 := LanesOf(S);
    ghost var N := NextMap(NodesOf(previousFloor));
    for j := 0 to |previousFloor|
      invariant LanesOf(S) == FromPass(L0, nodeA, previousFloor[..j], N)
    {
      var nodeB := previousFloor[j];
      assert previousFloor[..j + 1][..j] == previousFloor[..j];
      if nodeA == nodeB || Abs(nodeA.Y - nodeB.Y) > 1 {
        continue;
      }
      PairOn(previousFloor, floor, nodeA, j);
      CorrectPair(nodeA, nodeB, floor, S);
    }
    assert previousFloor[..|previousFloor|] == previousFloor;
  }

  lemma PairOn(previousFloor: seq<MapNode>, floor: seq<MapNode>, nodeA: MapNode, j: int)
    requires nodeA in previousFloor && 0 <= j < |previousFloor| && SuccessorsOn(previousFloor, floor)
    ensures SuccessorsOn([nodeA, previousFloor[j]], floor)
  {
    var i := IndexOf(previousFloor, nodeA);
    forall t, k | 0 <= t < 2 && 0 <= k < |[nodeA, previousFloor[j]][t].NextNodes|
      ensures [nodeA, previousFloor[j]][t].NextNodes[k] in floor
    {
      var n := if t == 0 then i else j;
      assert [nodeA, previousFloor[j]][t] == previousFloor[n];
    }
  }

  /** CorrectPaths: the lanes of the two floors afterwards are PathsPass of
      their lanes before, over the base floor's successor lists, so every
      two base nodes at most one lane apart have their crossing successors
      exchange lanes, in the order of the four loops. Only lanes of the
      current floor change, and they keep their multiset (PathsPassPermutes). */
  method CorrectPaths(currentFloor: seq<MapNode>, previousFloor: seq<MapNode>)
    requires SuccessorsOn(previousFloor, currentFloor) && NoDup(currentFloor)
    modifies NodesOf(currentFloor)`Y
    ensures var S := NodesOf(currentFloor) + NodesOf(previousFloor);
            LanesOf(S) == PathsPass(old(LanesOf(S)), previousFloor, previousFloor, NextMap(NodesOf(previousFloor)))
    ensures multiset(LaneList(currentFloor)) == old(multiset(LaneList(currentFloor)))
  {
    ghost var S := NodesOf(currentFloor) + NodesOf(previousFloor);
    ghost var L0 := LanesOf(S);
    ghost var N := NextMap(NodesOf(previousFloor));
    ghost var before := LaneList(currentFloor);
    for i := 0 to |previousFloor|
      invariant LanesOf(S) == PathsPass(L0, previousFloor[..i], previousFloor, N)
    {
      assert previousFloor[..i + 1][..i] == previousFloor[..i];
      CorrectFrom(previousFloor[i], previousFloor, currentFloor, S);
    }
    assert previousFloor[..|previousFloor|] == previousFloor;
    SuccessorsSnapshot(previousFloor, currentFloor);
    PathsPassPermutes(currentFloor, L0, previousFloor, previousFloor, N);
    assert before == LanesAlong(currentFloor, L0);
    assert LaneList(currentFloor) == LanesAlong(currentFloor, LanesOf(S));
  }

  /** A lane a node of floor x may take: on the floor and continuing no
      straight line over the lanes of the floors below. */
  predicate LaneOk(lanes: seq<set<int>>, y: int, x: int)
    requires x <= |lanes|
  {
    0 <= y < FloorWidth && !MapGenerator.Straight(lanes, y, x, Lookback)
  }

  /** Lanes that keep their multiset stay acceptable: CorrectPaths only
      exchanges lanes that were drawn. */
  lemma BagKeeps(before: seq<int>, after: seq<int>, lanes: seq<set<int>>, x: int)
    requires x <= |lanes| && multiset(after) == multiset(before)
    requires forall k :: 0 <= k < |before| ==> LaneOk(lanes, before[k], x)
    ensures forall k :: 0 <= k < |after| ==> LaneOk(lanes, after[k], x)
  {
    forall k | 0 <= k < |after| ensures LaneOk(lanes, after[k], x) {
      assert after[k] in multiset(after);
      var m :| 0 <= m < |before| && before[m] == after[k];
    }
  }

  // ---------------------------------------------------------------------
  // The lane draws of GenerateMap.
  // ---------------------------------------------------------------------

  /** The lane tried for a node whose base is on lane baseY when the
      stream's k-th call is the draw: the base lane moved by
      Random.Range(-1, 2) and clamped to the floor. */
  function Candidate(baseY: int, draw: nat -> nat, k: nat): (y: int)
    ensures 0 <= y < FloorWidth
    ensures 0 <= baseY < FloorWidth ==> baseY - 1 <= y <= baseY + 1
  {
    Clamp(baseY + RangeAt(draw, k, -1, 2), 0, FloorWidth - 1)
  }

  /** Draw u of a do-while started at stream position c0 lands on a lane
      that continues a straight line. */
  predicate StraightAt(lanes: seq<set<int>>, baseY: int, draw: nat -> nat, c0: nat, floorIndex: int, u: nat)
    requires floorIndex <= |lanes|
  {
    MapGenerator.Straight(lanes, Candidate(baseY, draw, c0 + u), floorIndex, Lookback)
  }

  /** The do-while, cut off after `fuel` draws, makes `used` draws and
      accepts the last one exactly when `found`: every draw before the
      accepted one was straight, the accepted one is not, and without an
      accepted draw every one of the fuel draws was straight. */
  ghost predicate DrawnWithin(lanes: seq<set<int>>, baseY: int, draw: nat -> nat, c0: nat, floorIndex: int,
                              fuel: nat, used: int, found: bool)
    requires floorIndex <= |lanes|
  {
    0 <= used <= fuel
    && (forall u :: 0 <= u < used - (if found then 1 else 0) ==> StraightAt(lanes, baseY, draw, c0, floorIndex, u))
    && (found ==> used >= 1 && !StraightAt(lanes, baseY, draw, c0, floorIndex, used - 1))
    && (!found ==> used == fuel)
  }

  /** The draws decide the outcome: one number of draws and one verdict
      satisfy DrawnWithin. */
  lemma DrawnWithinUnique(lanes: seq<set<int>>, baseY: int, draw: nat -> nat, c0: nat, floorIndex: int,
                          fuel: nat, used: int, found: bool, used': int, found': bool)
    requires floorIndex <= |lanes|
    requires DrawnWithin(lanes, baseY, draw, c0, floorIndex, fuel, used, found)
    requires DrawnWithin(lanes, baseY, draw, c0, floorIndex, fuel, used', found')
    ensures used == used' && found == found'
  {
  }

  /** The cut-off only ever stops a draw that has not succeeded yet: with
      more fuel the same draws find the same lane. */
  lemma MoreFuel(lanes: seq<set<int>>, baseY: int, draw: nat -> nat, c0: nat, floorIndex: int,
                 fuel: nat, fuel': nat, used: int)
    requires floorIndex <= |lanes| && fuel <= fuel'
    requires DrawnWithin(lanes, baseY, draw, c0, floorIndex, fuel, used, true)
    ensures DrawnWithin(lanes, baseY, draw, c0, floorIndex, fuel', used, true)
  {
  }

  /** The state of a floor C under construction on the base floor P, X
      being its floor index and S the nodes made before: C's nodes are new,
      distinct, on floor X, on lanes of the floor that continue no
      straight line, without successors but reached from some node, and the
      edges are those E of before plus edges from P to C. */
  ghost predicate Growing(P: seq<MapNode>, C: seq<MapNode>, S: set<MapNode>, E: set<Edge>, x: int,
                          lanes: seq<set<int>>)
    reads (S + NodesOf(C))`NextNodes, (S + NodesOf(C))`PreviousNodes, NodesOf(C)`Y
  {
    x <= |lanes| && NoDup(C)
    && (forall k :: 0 <= k < |C| ==>
          C[k] !in S && C[k].X == x && 0 <= C[k].Y < FloorWidth && !MapGenerator.Straight(lanes, C[k].Y, x, Lookback)
          && C[k].NextNodes == [] && C[k].PreviousNodes != [])
    && Linked(S + NodesOf(C))
    && E <= Edges(S + NodesOf(C))
    && forall e :: e in Edges(S + NodesOf(C)) ==> e in E || (e.0 in P && e.1 in NodesOf(C))
  }

  /** The successor lists of the nodes of P, in order. */
  ghost function SuccessorLists(P: seq<MapNode>): (N: seq<seq<MapNode>>)
    reads NodesOf(P)`NextNodes
    ensures |N| == |P| && forall k :: 0 <= k < |P| ==> N[k] == P[k].NextNodes
    decreases |P|
  {
    if P == [] then [] else [P[0].NextNodes] + SuccessorLists(P[1..])
  }

  /** The progress of the foreach of SeedFloor after i base nodes: those
      have a successor, the rest keep their successors N0, and on a floor
      without successors (leaves) one node was made per base node. */
  ghost predicate Seeded(P: seq<MapNode>, C: seq<MapNode>, i: int, N0: seq<seq<MapNode>>, leaves: bool)
    reads NodesOf(P)`NextNodes
  {
    0 <= i <= |P| == |N0|
    && (forall k :: 0 <= k < i ==> P[k].NextNodes != [])
    && (forall k :: i <= k < |P| ==> P[k].NextNodes == N0[k])
    && (leaves ==> |C| == i && forall k :: 0 <= k < |P| ==> N0[k] == [])
  }

  // ---------------------------------------------------------------------
  // The shape of the map between two floors of GenerateMap.
  // ---------------------------------------------------------------------

  /** Every edge of E joins two nodes of L, the second one floor above the
      first. */
  ghost predicate Forward(E: set<Edge>, L: set<MapNode>) {
    forall e :: e in E ==> e.0 in L && e.1 in L && e.1.X == e.0.X + 1
  }

  /** A floor after RemoveDuplicates: not empty, on lanes of the floor, and
      no two nodes on one lane (what ValidateMaps asserts). */
  ghost predicate FloorOk(floor: seq<MapNode>)
    reads floor`Y
  {
    |floor| > 0 && (forall k :: 0 <= k < |floor| ==> 0 <= floor[k].Y < FloorWidth)
    && MapGenerator.DistinctLanes(floor)
  }

  /** No node of a floor takes a lane that both floors below it take. */
  ghost predicate NoStraightRuns(floors: seq<seq<MapNode>>)
    reads AllNodes(floors)`Y
  {
    forall f, k :: Lookback <= f < |floors| && 0 <= k < |floors[f]| ==>
      !(MapGenerator.HasLane(floors[f - 1], floors[f][k].Y) && MapGenerator.HasLane(floors[f - 2], floors[f][k].Y))
  }

  /** The lanes of a map under construction: every floor is FloorOk, no
      lane runs straight over three floors, and floor 0 holds the two
      starting nodes. */
  ghost predicate LanesShaped(floors: seq<seq<MapNode>>)
    reads AllNodes(floors)`Y
  {
    (forall f :: 0 <= f < |floors| ==> FloorOk(floors[f]))
    && NoStraightRuns(floors)
    && |floors| > 0 && |floors[0]| == 2 && floors[0][0].Y == StartY1 && floors[0][1].Y == StartY2
  }

  /** The map as GenerateMap leaves it after each floor, S holding its nodes
      and the nodes merged away: floors on their own X with the lanes of
      LanesShaped, edge lists that mirror each other, a successor for every
      node below the top floor, and every edge from a floor to the next. */
  ghost predicate Shaped(floors: seq<seq<MapNode>>, S: set<MapNode>)
    reads S`Y, S`NextNodes, S`PreviousNodes
  {
    AllNodes(floors) <= S && MapGenerator.Layered(floors) && LanesShaped(floors)
    && Linked(S)
    && (forall f :: 0 <= f < |floors| - 1 ==> MapGenerator.Started(floors[f]))
    && Forward(Edges(S), AllNodes(floors))
  }

  /** The two starting nodes form a shaped map of one floor. */
  lemma ShapedStart(floors: seq<seq<MapNode>>, S: set<MapNode>, a: MapNode, b: MapNode)
    requires floors == [[a, b]] && S == {a, b}
    requires a.X == 0 && b.X == 0 && a.Y == StartY1 && b.Y == StartY2
    requires a.NextNodes == [] && a.PreviousNodes == [] && b.NextNodes == [] && b.PreviousNodes == []
    ensures Shaped(floors, S)
  {
    forall n | n in AllNodes(floors) ensures n in {a, b} {
      var f :| 0 <= f < |floors| && n in floors[f];
    }
    assert floors[0] == [a, b];
    LinkedAddIsolated({}, {a, b});
    forall e ensures e !in Edges({a, b}) {
      EdgeIn({a, b}, e);
    }
  }

  /** Straight over two floors is a lane taken on both. */
  lemma StraightTwo(lanes: seq<set<int>>, y: int, x: int)
    requires Lookback <= x <= |lanes|
    ensures MapGenerator.Straight(lanes, y, x, Lookback) <==> y in lanes[x - 1] && y in lanes[x - 2]
  {
    if y in lanes[x - 1] && y in lanes[x - 2] {
      forall i | x - Lookback <= i < x ensures y in lanes[i] {
        if i == x - 2 {
        } else {
          assert i == x - 1;
        }
      }
    }
  }

  /** Distinct lanes mean distinct nodes. */
  lemma DistinctNoDup(floor: seq<MapNode>)
    requires MapGenerator.DistinctLanes(floor)
    ensures NoDup(floor)
  {
  }

  /** Every edge starts below the top floor. */
  lemma ForwardBelowTop(floors: seq<seq<MapNode>>, E: set<Edge>)
    requires MapGenerator.Layered(floors) && Forward(E, AllNodes(floors))
    ensures forall e :: e in E ==> e.0.X + 1 < |floors|
  {
    forall e | e in E ensures e.0.X + 1 < |floors| {
      var f :| 0 <= f < |floors| && e.1 in floors[f];
    }
  }

  /** The top floor of a shaped map has no successors. */
  lemma TopLeaves(floors: seq<seq<MapNode>>, S: set<MapNode>)
    requires |floors| > 0 && Shaped(floors, S)
    ensures MapGenerator.Leaves(floors[|floors| - 1])
  {
    ForwardBelowTop(floors, Edges(S));
    forall n | n in floors[|floors| - 1] ensures n.NextNodes == [] {
      forall x ensures x !in n.NextNodes {
        EdgeIn(S, (n, x));
      }
      NoDupBound(n.NextNodes, []);
    }
  }

  /** In a shaped map every node off the top floor has a successor. */
  lemma StartedBelowTop(floors: seq<seq<MapNode>>, S: set<MapNode>)
    requires |floors| > 0 && Shaped(floors, S)
    ensures forall n :: n in AllNodes(floors) ==> n in floors[|floors| - 1] || n.NextNodes != []
  {
    forall n | n in AllNodes(floors) ensures n in floors[|floors| - 1] || n.NextNodes != [] {
      var f :| 0 <= f < |floors| && n in floors[f];
      if f < |floors| - 1 {
        assert MapGenerator.Started(floors[f]);
      }
    }
  }

  /** After growth, every successor of the top floor is on the grown
      floor: the edges from before all start lower. */
  lemma GrownOn(P: seq<MapNode>, C: seq<MapNode>, S: set<MapNode>, E: set<Edge>, x: int)
    requires forall e :: e in E ==> e.0.X + 1 < x
    requires forall k :: 0 <= k < |P| ==> P[k].X + 1 == x && P[k] in S
    requires forall e :: e in Edges(S) ==> e in E || (e.0 in P && e.1 in NodesOf(C))
    ensures SuccessorsOn(P, C)
  {
    forall i, k | 0 <= i < |P| && 0 <= k < |P[i].NextNodes| ensures P[i].NextNodes[k] in C {
      EdgeIn(S, (P[i], P[i].NextNodes[k]));
    }
  }

  /** After growth no edge joins two nodes of the grown floor: every edge
      starts on an older floor. */
  lemma GrownApart(P: seq<MapNode>, C: seq<MapNode>, S: set<MapNode>, E0: set<Edge>, E: set<Edge>)
    requires forall e :: e in E ==> e.0 in S
    requires NodesOf(P) <= S && forall k :: 0 <= k < |C| ==> C[k] !in S
    requires forall e :: e in E0 ==> e in E || (e.0 in P && e.1 in NodesOf(C))
    ensures NoEdgeWithin(E0, NodesOf(C))
  {
  }

  /** The edges after RemoveDuplicates still lead from a floor to the next,
      now onto the surviving nodes of the new floor. */
  lemma ForwardStep(E: set<Edge>, E0: set<Edge>, rho: map<MapNode, MapNode>, L: set<MapNode>,
                    P: seq<MapNode>, C: seq<MapNode>, floor: seq<MapNode>, x: int)
    requires Forward(E, L) && forall k :: 0 <= k < |C| ==> C[k] !in L && C[k].X == x
    requires forall k :: 0 <= k < |P| ==> P[k] in L && P[k].X + 1 == x
    requires forall e :: e in E0 ==> e in E || (e.0 in P && e.1 in NodesOf(C))
    requires rho.Keys == NodesOf(C) - NodesOf(floor)
    requires forall k :: k in rho ==> rho[k] in floor && rho[k].X == k.X
    requires NodesOf(floor) <= NodesOf(C)
    ensures Forward(RenameEdgesBy(E0, rho), L + NodesOf(floor))
  {
    forall e1 | e1 in RenameEdgesBy(E0, rho)
      ensures e1.0 in L + NodesOf(floor) && e1.1 in L + NodesOf(floor) && e1.1.X == e1.0.X + 1
    {
      var e :| e in E0 && e1 == (RenameBy(rho, e.0), RenameBy(rho, e.1));
      if e in E {
        assert e.0 !in rho && e.1 !in rho;
      } else {
        var i :| 0 <= i < |P| && P[i] == e.0;
        var k :| 0 <= k < |C| && C[k] == e.1;
        assert e.0 !in rho;
      }
    }
  }

  /** Successors found before RemoveDuplicates survive it, renamed: every
      node of L outside the merged ones keeps a successor. */
  lemma StartedKept(S: set<MapNode>, E0: set<Edge>, rho: map<MapNode, MapNode>, L: set<MapNode>,
                    succ: map<MapNode, MapNode>)
    requires Edges(S) == RenameEdgesBy(E0, rho) && L <= S
    requires forall n :: n in L ==> n !in rho && n in succ && (n, succ[n]) in E0
    ensures forall n :: n in L ==> n.NextNodes != []
  {
    forall n | n in L ensures n.NextNodes != [] {
      var e := (n, succ[n]);
      assert (RenameBy(rho, e.0), RenameBy(rho, e.1)) in RenameEdgesBy(E0, rho);
      EdgeIn(S, (n, RenameBy(rho, succ[n])));
    }
  }

  /** The surviving nodes of a grown floor form a FloorOk floor on floor x,
      every one on a lane that was acceptable. */
  lemma FloorStep(C: seq<MapNode>, floor: seq<MapNode>, ys: map<MapNode, int>, lanes: seq<set<int>>, x: int)
    requires x <= |lanes| && |C| > 0 && ys == LanesOf(NodesOf(C)) && floor == Survivors(C, ys)
    requires forall k :: 0 <= k < |C| ==> C[k].X == x && LaneOk(lanes, C[k].Y, x)
    ensures FloorOk(floor) && NodesOf(floor) <= NodesOf(C)
    ensures forall k :: 0 <= k < |floor| ==> floor[k].X == x && LaneOk(lanes, floor[k].Y, x)
  {
    var idx := SurvivorsPositions(C, ys);
    SurvivorsDistinct(C, ys);
    forall k | 0 <= k < |floor| ensures floor[k] in C && floor[k].X == x && LaneOk(lanes, floor[k].Y, x) {
      assert floor[k] == C[idx[k]];
    }
    forall a, b | 0 <= a < b < |floor| ensures floor[a].Y != floor[b].Y {
      assert !SameSpace(ys, floor[a], floor[b]);
    }
  }

  /** A new floor whose lanes continue no straight line keeps the map free
      of straight runs. */
  lemma NoStraightStep(floors: seq<seq<MapNode>>, floor: seq<MapNode>, lanes: seq<set<int>>)
    requires lanes == MapGenerator.LaneSets(floors) && NoStraightRuns(floors)
    requires forall k :: 0 <= k < |floor| ==> LaneOk(lanes, floor[k].Y, |floors|)
    ensures NoStraightRuns(floors + [floor])
  {
    var F: seq<seq<MapNode>> := floors + [floor];
    forall f, k | Lookback <= f < |F| && 0 <= k < |F[f]|
      ensures !(MapGenerator.HasLane(F[f - 1], F[f][k].Y) && MapGenerator.HasLane(F[f - 2], F[f][k].Y))
    {
      assert F[f - 1] == floors[f - 1] && F[f - 2] == floors[f - 2];
      if f < |floors| {
        assert F[f] == floors[f];
      } else {
        assert F[f] == floor;
        StraightTwo(lanes, floor[k].Y, f);
        MapGenerator.LaneSetsAt(floors, f - 1, floor[k].Y);
        MapGenerator.LaneSetsAt(floors, f - 2, floor[k].Y);
      }
    }
  }

  /** A new top floor that is FloorOk on its own X and continues no
      straight line extends the lanes of a map. */
  lemma LanesStep(floors: seq<seq<MapNode>>, floor: seq<MapNode>, lanes: seq<set<int>>)
    requires lanes == MapGenerator.LaneSets(floors) && LanesShaped(floors) && FloorOk(floor)
    requires forall k :: 0 <= k < |floor| ==> LaneOk(lanes, floor[k].Y, |floors|)
    ensures LanesShaped(floors + [floor])
  {
    var F: seq<seq<MapNode>> := floors + [floor];
    NoStraightStep(floors, floor, lanes);
    assert F[0] == floors[0];
    forall f | 0 <= f < |F| ensures FloorOk(F[f]) {
      if f < |floors| {
        assert F[f] == floors[f];
      }
    }
  }

  /** The pieces NextFloor establishes make the map with its new top floor
      shaped. */
  lemma ShapedStep(floors: seq<seq<MapNode>>, floor: seq<MapNode>, S: set<MapNode>)
    requires AllNodes(floors) <= S && NodesOf(floor) <= S && Linked(S)
    requires MapGenerator.Layered(floors) && forall k :: 0 <= k < |floor| ==> floor[k].X == |floors|
    requires LanesShaped(floors + [floor])
    requires forall n :: n in AllNodes(floors) ==> n.NextNodes != []
    requires Forward(Edges(S), AllNodes(floors) + NodesOf(floor))
    ensures Shaped(floors + [floor], S)
  {
    var F: seq<seq<MapNode>> := floors + [floor];
    MapGenerator.AllNodesAppend(floors, floor);
    assert F[|floors|] == floor;
    forall f | 0 <= f < |F| - 1 ensures MapGenerator.Started(F[f]) {
      assert F[f] == floors[f];
      MapGenerator.FloorInAll(floors, f);
    }
    assert MapGenerator.Layered(F) by {
      forall f, n: MapNode | 0 <= f < |F| && n in F[f] ensures n.X == f {
        if f == |floors| {
          var i :| 0 <= i < |floor| && floor[i] == n;
        } else {
          assert F[f] == floors[f];
        }
      }
    }
  }

  /** A shaped map is shaped on its own nodes: the merged nodes have no
      edges left. */
  lemma ShapedOwn(floors: seq<seq<MapNode>>, S: set<MapNode>)
    requires Shaped(floors, S)
    ensures Shaped(floors, AllNodes(floors))
  {
    var L := AllNodes(floors);
    forall a | a in L
      ensures (forall b :: b in a.NextNodes ==> b in L) && (forall b :: b in a.PreviousNodes ==> b in L)
    {
      forall b | b in a.NextNodes ensures b in L {
        EdgeIn(S, (a, b));
      }
      forall b | b in a.PreviousNodes ensures b in L {
        EdgeIn(S, (b, a));
      }
    }
    forall e | e in Edges(L) ensures e in Edges(S) {
      EdgeIn(L, e);
      EdgeIn(S, e);
    }
  }

  /** No floor of a shaped map has two nodes on one lane. */
  lemma ShapedDistinct(floors: seq<seq<MapNode>>, S: set<MapNode>)
    requires Shaped(floors, S)
    ensures forall f :: 0 <= f < |floors| ==> MapGenerator.DistinctLanes(floors[f])
  {
    forall f | 0 <= f < |floors| ensures MapGenerator.DistinctLanes(floors[f]) {
      assert FloorOk(floors[f]);
    }
  }

  /** The edges of a shaped map lead from every floor to the next: every
      node below the top has a successor, all on the next floor, and the
      top floor has none. */
  lemma ShapedPaths(floors: seq<seq<MapNode>>, S: set<MapNode>)
    requires Shaped(floors, S)
    ensures MapGenerator.Paths(floors)
  {
    TopLeaves(floors, S);
    forall f | 0 <= f < |floors| - 1 ensures MapGenerator.SuccessorsOn(floors[f], floors[f + 1]) {
      forall m, n | m in floors[f] && n in m.NextNodes ensures n in floors[f + 1] {
        MapGenerator.FloorInAll(floors, f);
        EdgeIn(S, (m, n));
        var g :| 0 <= g < |floors| && n in floors[g];
      }
    }
  }

  /** What the growth of a floor leaves for the rest of NextFloor: every
      node of the map has a successor (succ names one), the top floor's
      successors are on the grown floor, and every edge among S and the
      grown floor is one from before or one from the top floor up. */
  lemma GrownFacts(floors: seq<seq<MapNode>>, P: seq<MapNode>, C: seq<MapNode>, S: set<MapNode>, E: set<Edge>,
                   x: int, lanes: seq<set<int>>)
    returns (succ: map<MapNode, MapNode>)
    requires 0 < x == |floors| && P == floors[x - 1] && AllNodes(floors) <= S
    requires forall e :: e in E ==> e.0.X + 1 < x
    requires forall n :: n in AllNodes(floors) ==> n in P || n.NextNodes != []
    requires MapGenerator.Layered(floors) && MapGenerator.Started(P)
    requires Growing(P, C, S, E, x, lanes)
    ensures forall n :: n in AllNodes(floors) ==> n in succ && (n, succ[n]) in Edges(S + NodesOf(C))
    ensures SuccessorsOn(P, C)
  {
    var L, S1 := AllNodes(floors), S + NodesOf(C);
    MapGenerator.FloorInAll(floors, x - 1);
    forall n | n in L ensures n.NextNodes != [] {
      if n in P {
        assert |n.NextNodes| > 0;
      }
    }
    succ := map n | n in L :: n.NextNodes[0];
    forall n | n in L ensures (n, succ[n]) in Edges(S1) {
      EdgeIn(S1, (n, succ[n]));
    }
    forall k | 0 <= k < |P| ensures P[k].X + 1 == x && P[k] in S1 {
      assert P[k] in floors[x - 1];
    }
    GrownOn(P, C, S1, E, x);
  }

  /** GrownFacts, with the rest of what CorrectPaths and RemoveDuplicates
      need of a grown floor. */
  lemma GrownReady(floors: seq<seq<MapNode>>, P: seq<MapNode>, C: seq<MapNode>, S: set<MapNode>, E: set<Edge>,
                   x: int, lanes: seq<set<int>>)
    returns (succ: map<MapNode, MapNode>)
    requires 0 < x == |floors| && P == floors[x - 1] && AllNodes(floors) <= S
    requires forall e :: e in E ==> e.0.X + 1 < x
    requires forall n :: n in AllNodes(floors) ==> n in P || n.NextNodes != []
    requires MapGenerator.Layered(floors) && MapGenerator.Started(P)
    requires Growing(P, C, S, E, x, lanes)
    ensures forall n :: n in AllNodes(floors) ==> n in succ && (n, succ[n]) in Edges(S + NodesOf(C))
    ensures forall k :: 0 <= k < |P| ==> P[k] in AllNodes(floors) && P[k].X + 1 == x
    ensures forall k :: 0 <= k < |C| ==> C[k] !in AllNodes(floors) && C[k].X == x && LaneOk(lanes, C[k].Y, x)
    ensures forall e :: e in Edges(S + NodesOf(C)) ==> e in E || (e.0 in P && e.1 in NodesOf(C))
    ensures x <= |lanes| && SuccessorsOn(P, C) && NoDup(C) && Linked(S + NodesOf(C))
  {
    succ := GrownFacts(floors, P, C, S, E, x, lanes);
    MapGenerator.FloorInAll(floors, x - 1);
    forall k | 0 <= k < |P| ensures P[k] in AllNodes(floors) && P[k].X + 1 == x {
      assert P[k] in floors[x - 1];
    }
  }

  /** What growing a floor on the top floor of the map needs of it: its
      nodes are distinct nodes of S on the top floor, there is at least
      one, none has a successor yet, and every other node of the map has
      one. */
  ghost predicate TopReady(floors: seq<seq<MapNode>>, S: set<MapNode>)
    reads S`NextNodes
    requires |floors| > 0
  {
    var P := floors[|floors| - 1];
    NodesOf(P) <= S && NoDup(P) && |P| > 0
    && (forall k :: 0 <= k < |P| ==> P[k].X + 1 == |floors|)
    && (forall n :: n in P ==> n.NextNodes == [])
    && forall n :: n in AllNodes(floors) && n in S ==> n in P || n.NextNodes != []
  }

  /** The top floor of a shaped map is ready for the next floor. */
  lemma TopIsReady(floors: seq<seq<MapNode>>, S: set<MapNode>)
    requires |floors| > 0 && Shaped(floors, S)
    ensures TopReady(floors, S)
  {
    var P := floors[|floors| - 1];
    MapGenerator.FloorInAll(floors, |floors| - 1);
    TopLeaves(floors, S);
    StartedBelowTop(floors, S);
    DistinctNoDup(P);
    assert FloorOk(P);
  }

  class NodeMapGenerator {
    var floors: seq<seq<MapNode>>
    const rng: RandomSource

    constructor (rng: RandomSource)
      ensures this.rng == rng && floors == []
    {
      this.rng := rng;
      floors := [];
    }

    /** The do-while of both phases of GenerateMap, cut off after `fuel`
        draws: lanes next to baseY are drawn until one does not continue a
        straight line over the last Lookback floors. `lanes` are the lanes
        of the floors built so far. */
    method DrawLane(baseY: int, floorIndex: int, fuel: nat, ghost lanes: seq<set<int>>)
      returns (found: bool, newY: int)
      requires floorIndex <= |floors| && lanes == MapGenerator.LaneSets(floors)
      modifies rng`Calls
      ensures DrawnWithin(lanes, baseY, rng.Draw, old(rng.Calls), floorIndex, fuel, rng.Calls - old(rng.Calls), found)
      ensures found ==> newY == Candidate(baseY, rng.Draw, rng.Calls - 1)
      ensures found ==> !MapGenerator.Straight(lanes, newY, floorIndex, Lookback)
    {
      ghost var c0 := rng.Calls;
      var attempts := 0;
      while attempts < fuel
        invariant 0 <= attempts <= fuel && rng.Calls == c0 + attempts
        invariant forall u :: 0 <= u < attempts ==> StraightAt(lanes, baseY, rng.Draw, c0, floorIndex, u)
        invariant lanes == MapGenerator.LaneSets(floors)
      {
        var offset := rng.Range(-1, 2);
        assert forall n :: n in AllNodes(floors) ==> n.Y == old(n.Y);
        newY := Clamp(baseY + offset, 0, FloorWidth - 1);
        var straight := MapGenerator.IsStraightPath(floors, newY, floorIndex, Lookback);
        attempts := attempts + 1;
        if !straight {
          return true, newY;
        }
      }
      return false, 0;
    }

    /** `new MapNode(baseNode.X + 1, newY)` on a drawn lane, connected from
        baseNode; null when the draw runs out of fuel. */
    method NewNode(baseNode: MapNode, floorIndex: int, fuel: nat, ghost lanes: seq<set<int>>, ghost T: set<MapNode>)
      returns (newNode: MapNode?)
      requires floorIndex <= |floors| && lanes == MapGenerator.LaneSets(floors)
      requires Linked(T) && baseNode in T
      modifies rng`Calls, baseNode`NextNodes
      ensures newNode != null ==>
                fresh(newNode) && newNode.X == baseNode.X + 1 && rng.Calls > old(rng.Calls)
                && newNode.Y == Candidate(baseNode.Y, rng.Draw, rng.Calls - 1)
                && !MapGenerator.Straight(lanes, newNode.Y, floorIndex, Lookback)
                && newNode.NextNodes == [] && newNode.PreviousNodes == [baseNode]
                && baseNode.NextNodes == old(baseNode.NextNodes) + [newNode]
                && Linked(T + {newNode}) && Edges(T + {newNode}) == old(Edges(T)) + {(baseNode, newNode)}
      ensures newNode == null ==> baseNode.NextNodes == old(baseNode.NextNodes)
      ensures DrawnWithin(lanes, baseNode.Y, rng.Draw, old(rng.Calls), floorIndex, fuel, rng.Calls - old(rng.Calls),
                          newNode != null)
    {
      var found, newY := DrawLane(baseNode.Y, floorIndex, fuel, lanes);
      if !found {
        return null;
      }
      ghost var calls, baseY := rng.Calls, baseNode.Y;
      assert newY == Candidate(baseY, rng.Draw, calls - 1);
      newNode := Attach(baseNode, newY, T);
      assert rng.Calls == calls && baseNode.Y == baseY;
    }

    /** NewNode seen from the floor under construction: a fresh node on an
        acceptable lane of the next floor, its one edge from baseNode. */
    method NewNodeOn(baseNode: MapNode, floorIndex: int, fuel: nat, ghost lanes: seq<set<int>>, ghost T: set<MapNode>)
      returns (newNode: MapNode?)
      requires floorIndex <= |floors| && lanes == MapGenerator.LaneSets(floors)
      requires Linked(T) && baseNode in T
      modifies rng`Calls, baseNode`NextNodes
      ensures newNode != null ==>
                fresh(newNode) && newNode.X == baseNode.X + 1 && 0 <= newNode.Y < FloorWidth
                && !MapGenerator.Straight(lanes, newNode.Y, floorIndex, Lookback)
                && newNode.NextNodes == [] && newNode.PreviousNodes != [] && baseNode.NextNodes != []
                && Linked(T + {newNode}) && Edges(T + {newNode}) == old(Edges(T)) + {(baseNode, newNode)}
      ensures newNode == null ==> baseNode.NextNodes == old(baseNode.NextNodes)
      ensures lanes == MapGenerator.LaneSets(floors)
    {
      newNode := NewNode(baseNode, floorIndex, fuel, lanes, T);
      MapGenerator.LaneSetsKept(floors);
    }

    /** The node made on lane newY one floor above baseNode and connected
        from it. */
    static method Attach(baseNode: MapNode, newY: int, ghost T: set<MapNode>) returns (newNode: MapNode)
      requires Linked(T) && baseNode in T
      modifies baseNode`NextNodes
      ensures fresh(newNode) && newNode.X == baseNode.X + 1 && newNode.Y == newY
      ensures newNode.NextNodes == [] && newNode.PreviousNodes == [baseNode]
      ensures baseNode.NextNodes == old(baseNode.NextNodes) + [newNode]
      ensures Linked(T + {newNode}) && Edges(T + {newNode}) == old(Edges(T)) + {(baseNode, newNode)}
    {
      newNode := new MapNode(baseNode.X + 1, newY);
      assert newNode !in baseNode.NextNodes;
      LinkedAddIsolated(T, {newNode});
      EdgesAddIsolated(T, newNode);
      ConnectEdge(baseNode, newNode, T + {newNode});
    }

    /** One node more on the floor under construction, from baseNode. */
    method GrowOne(P: seq<MapNode>, C: seq<MapNode>, baseNode: MapNode, floorIndex: int, fuel: nat,
                   ghost lanes: seq<set<int>>, ghost S: set<MapNode>, ghost E: set<Edge>)
      returns (C': seq<MapNode>, completed: bool)
      requires floorIndex <= |floors| && lanes == MapGenerator.LaneSets(floors)
      requires Growing(P, C, S, E, floorIndex, lanes) && baseNode in P && NodesOf(P) <= S
      requires baseNode.X + 1 == floorIndex
      modifies rng`Calls, baseNode`NextNodes
      ensures completed ==> Growing(P, C', S, E, floorIndex, lanes) && |C'| == |C| + 1 && C'[..|C|] == C
      ensures completed ==> fresh(C'[|C|]) && baseNode.NextNodes != []
      ensures !completed ==> C' == C && baseNode.NextNodes == old(baseNode.NextNodes)
      ensures lanes == MapGenerator.LaneSets(floors)
    {
      ghost var T := S + NodesOf(C);
      assert baseNode !in NodesOf(C);
      var c := NewNodeOn(baseNode, floorIndex, fuel, lanes, T);
      if c == null {
        return C, false;
      }
      C' := C + [c];
      completed := true;
      assert T + {c} == S + NodesOf(C');
      assert C'[..|C|] == C;
      forall k | 0 <= k < |C'|
        ensures C'[k] !in S && C'[k].X == floorIndex && 0 <= C'[k].Y < FloorWidth
                && !MapGenerator.Straight(lanes, C'[k].Y, floorIndex, Lookback)
                && C'[k].NextNodes == [] && C'[k].PreviousNodes != []
      {
        if k < |C| {
          assert C'[k] == C[k] && C[k] !in S;
        }
      }
    }

    /** The foreach of GenerateMap over the previous floor: every node
        without a successor gets a new node on the next floor. On a floor
        without successors, that is every node, one new node each. */
    method SeedFloor(P: seq<MapNode>, floorIndex: int, fuel: nat, ghost lanes: seq<set<int>>, ghost S: set<MapNode>)
      returns (C: seq<MapNode>, completed: bool)
      requires floorIndex <= |floors| && lanes == MapGenerator.LaneSets(floors)
      requires Linked(S) && NodesOf(P) <= S && NoDup(P)
      requires forall k :: 0 <= k < |P| ==> P[k].X + 1 == floorIndex
      modifies rng`Calls, NodesOf(P)`NextNodes
      ensures completed ==> Growing(P, C, S, old(Edges(S)), floorIndex, lanes) && MapGenerator.Started(P)
      ensures completed && old(MapGenerator.Leaves(P)) ==> |C| == |P|
      ensures forall k :: 0 <= k < |C| ==> fresh(C[k])
      ensures lanes == MapGenerator.LaneSets(floors)
    {
      ghost var E := Edges(S);
      ghost var N0 := SuccessorLists(P);
      ghost var leaves := MapGenerator.Leaves(P);
      C := [];
      assert S + NodesOf(C) == S;
      for i := 0 to |P|
        invariant Growing(P, C, S, E, floorIndex, lanes) && lanes == MapGenerator.LaneSets(floors)
        invariant Seeded(P, C, i, N0, leaves)
        invariant forall k :: 0 <= k < |C| ==> fresh(C[k])
      {
        ghost var before := C;
        C, completed := SeedStep(P, C, i, floorIndex, fuel, lanes, S, E, N0, leaves);
        forall k | 0 <= k < |C| ensures fresh(C[k]) {
          if k < |before| {
            assert C[k] == before[k];
          }
        }
        if !completed {
          return;
        }
      }
      completed := true;
    }

    /** One pass of the foreach of SeedFloor, on P[i]. */
    method SeedStep(P: seq<MapNode>, C: seq<MapNode>, i: int, floorIndex: int, fuel: nat, ghost lanes: seq<set<int>>,
                    ghost S: set<MapNode>, ghost E: set<Edge>, ghost N0: seq<seq<MapNode>>, ghost leaves: bool)
      returns (C': seq<MapNode>, completed: bool)
      requires floorIndex <= |floors| && lanes == MapGenerator.LaneSets(floors)
      requires NodesOf(P) <= S && NoDup(P) && 0 <= i < |P| && P[i].X + 1 == floorIndex
      requires Growing(P, C, S, E, floorIndex, lanes) && Seeded(P, C, i, N0, leaves)
      modifies rng`Calls, NodesOf(P)`NextNodes
      ensures lanes == MapGenerator.LaneSets(floors)
      ensures completed ==> Growing(P, C', S, E, floorIndex, lanes) && Seeded(P, C', i + 1, N0, leaves)
      ensures |C| <= |C'| && C'[..|C|] == C && forall k :: |C| <= k < |C'| ==> fresh(C'[k])
    {
      var baseNode := P[i];
      if |baseNode.NextNodes| < 1 {
        C', completed := GrowOne(P, C, baseNode, floorIndex, fuel, lanes, S, E);
      } else {
        C', completed := C, true;
        assert C'[..|C|] == C;
      }
      if completed {
        forall k | i + 1 <= k < |P| ensures P[k].NextNodes == N0[k] {
          assert P[k] != P[i];
        }
      }
    }

    /** The while loop of GenerateMap: nodes from randomly chosen base
        nodes until the floor has SoftDesiredNumOfConnections. */
    method FillFloor(P: seq<MapNode>, C0: seq<MapNode>, floorIndex: int, fuel: nat, ghost lanes: seq<set<int>>,
                     ghost S: set<MapNode>, ghost E: set<Edge>)
      returns (C: seq<MapNode>, completed: bool)
      requires floorIndex <= |floors| && lanes == MapGenerator.LaneSets(floors)
      requires Growing(P, C0, S, E, floorIndex, lanes) && MapGenerator.Started(P) && |P| > 0 && NodesOf(P) <= S
      requires forall k :: 0 <= k < |P| ==> P[k].X + 1 == floorIndex
      modifies rng`Calls, NodesOf(P)`NextNodes
      ensures completed ==> Growing(P, C, S, E, floorIndex, lanes) && MapGenerator.Started(P)
      ensures completed ==> |C| == Max(|C0|, SoftDesiredNumOfConnections)
      ensures forall k :: 0 <= k < |C| ==> C[k] in C0 || fresh(C[k])
    {
      C := C0;
      while |C| < SoftDesiredNumOfConnections
        invariant Growing(P, C, S, E, floorIndex, lanes) && lanes == MapGenerator.LaneSets(floors)
        invariant MapGenerator.Started(P) && |C0| <= |C| <= Max(|C0|, SoftDesiredNumOfConnections)
        invariant forall k :: 0 <= k < |C| ==> C[k] in C0 || fresh(C[k])
        decreases SoftDesiredNumOfConnections - |C|
      {
        ghost var before := C;
        C, completed := FillStep(P, C, floorIndex, fuel, lanes, S, E);
        forall k | 0 <= k < |C| ensures C[k] in C0 || fresh(C[k]) {
          if k < |before| {
            assert C[k] == before[k];
          }
        }
        if !completed {
          return;
        }
      }
      completed := true;
    }

    /** One pass of the while loop of FillFloor: Random.Range picks the base
        node. */
    method FillStep(P: seq<MapNode>, C: seq<MapNode>, floorIndex: int, fuel: nat, ghost lanes: seq<set<int>>,
                    ghost S: set<MapNode>, ghost E: set<Edge>)
      returns (C': seq<MapNode>, completed: bool)
      requires floorIndex <= |floors| && lanes == MapGenerator.LaneSets(floors)
      requires Growing(P, C, S, E, floorIndex, lanes) && MapGenerator.Started(P) && |P| > 0 && NodesOf(P) <= S
      requires forall k :: 0 <= k < |P| ==> P[k].X + 1 == floorIndex
      modifies rng`Calls, NodesOf(P)`NextNodes
      ensures lanes == MapGenerator.LaneSets(floors) && MapGenerator.Started(P)
      ensures completed ==> Growing(P, C', S, E, floorIndex, lanes) && |C'| == |C| + 1
      ensures |C| <= |C'| && C'[..|C|] == C && forall k :: |C| <= k < |C'| ==> fresh(C'[k])
    {
      var k := rng.Range(0, |P|);
      MapGenerator.LaneSetsKept(floors);
      C', completed := GrowFrom(P, C, k, floorIndex, fuel, lanes, S, E);
    }

    /** The pass of FillStep once Random.Range has picked P[k]. */
    method GrowFrom(P: seq<MapNode>, C: seq<MapNode>, k: int, floorIndex: int, fuel: nat, ghost lanes: seq<set<int>>,
                    ghost S: set<MapNode>, ghost E: set<Edge>)
      returns (C': seq<MapNode>, completed: bool)
      requires floorIndex <= |floors| && lanes == MapGenerator.LaneSets(floors)
      requires Growing(P, C, S, E, floorIndex, lanes) && MapGenerator.Started(P) && 0 <= k < |P| && NodesOf(P) <= S
      requires P[k].X + 1 == floorIndex
      modifies rng`Calls, NodesOf(P)`NextNodes
      ensures lanes == MapGenerator.LaneSets(floors) && MapGenerator.Started(P)
      ensures completed ==> Growing(P, C', S, E, floorIndex, lanes) && |C'| == |C| + 1
      ensures |C| <= |C'| && C'[..|C|] == C && forall j :: |C| <= j < |C'| ==> fresh(C'[j])
    {
      C', completed := GrowOne(P, C, P[k], floorIndex, fuel, lanes, S, E);
      assert C'[..|C|] == C;
    }

    /** The two phases that grow a floor on the floor below: one node for
        every base node without a successor, then nodes from random base
        nodes up to SoftDesiredNumOfConnections. */
    method GrowFloor(P: seq<MapNode>, floorIndex: int, fuel: nat, ghost lanes: seq<set<int>>, ghost S: set<MapNode>)
      returns (C: seq<MapNode>, completed: bool)
      requires floorIndex <= |floors| && lanes == MapGenerator.LaneSets(floors)
      requires Linked(S) && NodesOf(P) <= S && NoDup(P) && |P| > 0
      requires forall k :: 0 <= k < |P| ==> P[k].X + 1 == floorIndex
      modifies rng`Calls, NodesOf(P)`NextNodes
      ensures completed ==> Growing(P, C, S, old(Edges(S)), floorIndex, lanes) && MapGenerator.Started(P)
      ensures completed && old(MapGenerator.Leaves(P)) ==> |C| == Max(|P|, SoftDesiredNumOfConnections)
      ensures forall k :: 0 <= k < |C| ==> fresh(C[k])
    {
      ghost var E := Edges(S);
      C, completed := SeedFloor(P, floorIndex, fuel, lanes, S);
      if !completed {
        return;
      }
      var C0 := C;
      C, completed := FillFloor(P, C0, floorIndex, fuel, lanes, S, E);
      forall k | 0 <= k < |C| ensures fresh(C[k]) {
        if C[k] in C0 {
          var j :| 0 <= j < |C0| && C0[j] == C[k];
        }
      }
    }

    /** CorrectPaths on a grown floor C, seen through its lanes: they keep
        their multiset, so every one stays acceptable. */
    static method CorrectLanes(C: seq<MapNode>, P: seq<MapNode>, ghost lanes: seq<set<int>>, ghost x: int)
      requires x <= |lanes| && SuccessorsOn(P, C) && NoDup(C)
      requires forall k :: 0 <= k < |C| ==> LaneOk(lanes, C[k].Y, x)
      modifies NodesOf(C)`Y
      ensures forall k :: 0 <= k < |C| ==> LaneOk(lanes, C[k].Y, x)
    {
      ghost var before := LaneList(C);
      CorrectPaths(C, P);
      BagKeeps(before, LaneList(C), lanes, x);
    }

    /** RemoveDuplicates on a floor of nodes on X == x, seen from the
        floor that contains it: the survivors and where each merged node
        went. */
    static method MergeFloor(C: seq<MapNode>, ghost S: set<MapNode>, ghost x: int)
      returns (floor: seq<MapNode>, ghost rho: map<MapNode, MapNode>)
      requires NoDup(C) && NodesOf(C) <= S && Linked(S) && NoEdgeWithin(Edges(S), NodesOf(C))
      requires forall k :: 0 <= k < |C| ==> C[k].X == x
      modifies S`NextNodes, S`PreviousNodes
      ensures floor == Survivors(C, LanesOf(NodesOf(C)))
      ensures Linked(S) && Edges(S) == RenameEdgesBy(old(Edges(S)), rho)
      ensures rho.Keys == NodesOf(C) - NodesOf(floor)
      ensures forall k :: k in rho ==> rho[k] in floor && rho[k].X == x
    {
      assert Within(C, S);
      floor, rho := RemoveDuplicates(C, S);
      forall k | k in rho ensures rho[k] in floor && rho[k].X == x {
        assert rho[k] in floor[..|floor|];
        assert floor[..|floor|] == floor;
      }
    }

    /** RemoveDuplicates on a grown floor C whose edges E0 are those E of
        the floors L below plus edges from their top floor P to C: the
        survivors form a FloorOk floor on acceptable lanes, every edge
        still leads from a floor to the next, and every node of L keeps a
        successor (succ names one for each). */
    static method Dedup(C: seq<MapNode>, P: seq<MapNode>, ghost lanes: seq<set<int>>, ghost x: int,
                        ghost S: set<MapNode>, ghost L: set<MapNode>, ghost E: set<Edge>, ghost E0: set<Edge>,
                        ghost succ: map<MapNode, MapNode>)
      returns (floor: seq<MapNode>)
      requires x <= |lanes| && |C| > 0 && NoDup(C) && L <= S && NodesOf(C) <= S
      requires Forward(E, L) && forall k :: 0 <= k < |C| ==> C[k] !in L && C[k].X == x
      requires forall k :: 0 <= k < |P| ==> P[k] in L && P[k].X + 1 == x
      requires forall e :: e in E0 ==> e in E || (e.0 in P && e.1 in NodesOf(C))
      requires forall n :: n in L ==> n in succ && (n, succ[n]) in E0
      requires Linked(S) && Edges(S) == E0
      requires forall k :: 0 <= k < |C| ==> LaneOk(lanes, C[k].Y, x)
      modifies S`NextNodes, S`PreviousNodes
      ensures FloorOk(floor) && NodesOf(floor) <= NodesOf(C)
      ensures forall k :: 0 <= k < |floor| ==> floor[k].X == x && LaneOk(lanes, floor[k].Y, x)
      ensures Linked(S) && Forward(Edges(S), L + NodesOf(floor))
      ensures forall n :: n in L ==> n.NextNodes != []
    {
      ghost var ys := LanesOf(NodesOf(C));
      GrownApart(P, C, L, E0, E);
      ghost var rho;
      floor, rho := MergeFloor(C, S, x);
      FloorStep(C, floor, ys, lanes, x);
      assert floor[..|floor|] == floor;
      ForwardStep(E, E0, rho, L, P, C, floor, x);
      StartedKept(S, E0, rho, L, succ);
    }

    /** CorrectPaths and RemoveDuplicates on the floor C grown on the top
        floor P of the floors whose nodes are L, S holding L and E being
        the edges from before the growth. The surviving nodes form a
        FloorOk floor on acceptable lanes, every edge still leads from a
        floor to the next, every node of L keeps a successor, and no lane
        of L changes. */
    static method SettleGrown(floors: seq<seq<MapNode>>, P: seq<MapNode>, C: seq<MapNode>, x: int,
                              ghost lanes: seq<set<int>>, ghost S: set<MapNode>, ghost E: set<Edge>)
      returns (floor: seq<MapNode>)
      requires 0 < x == |floors| && P == floors[x - 1] && AllNodes(floors) <= S && |C| > 0
      requires Forward(E, AllNodes(floors)) && forall e :: e in E ==> e.0.X + 1 < x
      requires forall n :: n in AllNodes(floors) ==> n in P || n.NextNodes != []
      requires MapGenerator.Layered(floors) && MapGenerator.Started(P)
      requires Growing(P, C, S, E, x, lanes)
      modifies (S + NodesOf(C))`NextNodes, (S + NodesOf(C))`PreviousNodes, NodesOf(C)`Y
      ensures FloorOk(floor) && NodesOf(floor) <= NodesOf(C)
      ensures forall k :: 0 <= k < |floor| ==> floor[k].X == x && LaneOk(lanes, floor[k].Y, x)
      ensures Linked(S + NodesOf(C)) && Forward(Edges(S + NodesOf(C)), AllNodes(floors) + NodesOf(floor))
      ensures forall n :: n in AllNodes(floors) ==> n.NextNodes != [] && n.Y == old(n.Y)
    {
      ghost var L, S1 := AllNodes(floors), S + NodesOf(C);
      ghost var E0 := Edges(S1);
      ghost var succ := GrownReady(floors, P, C, S, E, x, lanes);
      CorrectLanes(C, P, lanes, x);
      assert forall n :: n in S1 ==> n.NextNodes == old(n.NextNodes) && n.PreviousNodes == old(n.PreviousNodes);
      floor := Dedup(C, P, lanes, x, S1, L, E, E0, succ);
    }

    /** SettleGrown, and the new floor's lanes extend those of the map. */
    static method SettleChecked(floors: seq<seq<MapNode>>, P: seq<MapNode>, C: seq<MapNode>, x: int,
                                ghost lanes: seq<set<int>>, ghost S: set<MapNode>, ghost E: set<Edge>)
      returns (floor: seq<MapNode>)
      requires 0 < x == |floors| && P == floors[x - 1] && AllNodes(floors) <= S && |C| > 0
      requires Forward(E, AllNodes(floors)) && forall e :: e in E ==> e.0.X + 1 < x
      requires forall n :: n in AllNodes(floors) ==> n in P || n.NextNodes != []
      requires MapGenerator.Layered(floors) && MapGenerator.Started(P)
      requires Growing(P, C, S, E, x, lanes)
      requires lanes == MapGenerator.LaneSets(floors) && LanesShaped(floors)
      modifies (S + NodesOf(C))`NextNodes, (S + NodesOf(C))`PreviousNodes, NodesOf(C)`Y
      ensures NodesOf(floor) <= NodesOf(C) && forall k :: 0 <= k < |floor| ==> floor[k].X == x
      ensures Linked(S + NodesOf(C)) && Forward(Edges(S + NodesOf(C)), AllNodes(floors) + NodesOf(floor))
      ensures forall n :: n in AllNodes(floors) ==> n.NextNodes != []
      ensures LanesShaped(floors + [floor])
    {
      floor := SettleGrown(floors, P, C, x, lanes, S, E);
      LanesStep(floors, floor, lanes);
    }

    /** floors.Add(currentFloor), onto a map that it keeps shaped. */
    method PushFloor(floor: seq<MapNode>, ghost S: set<MapNode>)
      requires AllNodes(floors) <= S && NodesOf(floor) <= S && Linked(S)
      requires MapGenerator.Layered(floors) && forall k :: 0 <= k < |floor| ==> floor[k].X == |floors|
      requires LanesShaped(floors + [floor])
      requires forall n :: n in AllNodes(floors) ==> n.NextNodes != []
      requires Forward(Edges(S), AllNodes(floors) + NodesOf(floor))
      modifies this`floors
      ensures floors == old(floors) + [floor] && Shaped(floors, S)
    {
      ShapedStep(floors, floor, S);
      floors := floors + [floor];
    }

    /** The floor grown on the top floor of the map, before its correction:
        the top floor's nodes now all have successors among the grown nodes
        C, and the nodes below it keep theirs. */
    method GrowTop(floorIndex: int, fuel: nat, ghost S: set<MapNode>) returns (C: seq<MapNode>, completed: bool)
      requires 0 < floorIndex == |floors| && AllNodes(floors) <= S && Linked(S)
      requires TopReady(floors, S)
      modifies rng`Calls, NodesOf(floors[floorIndex - 1])`NextNodes
      ensures forall k :: 0 <= k < |C| ==> fresh(C[k])
      ensures completed ==>
                |C| > 0 && Growing(floors[floorIndex - 1], C, S, old(Edges(S)), floorIndex, MapGenerator.LaneSets(floors))
                && MapGenerator.Started(floors[floorIndex - 1])
                && forall n :: n in AllNodes(floors) ==> n in floors[floorIndex - 1] || n.NextNodes != []
    {
      var previousFloor := floors[floorIndex - 1];
      C, completed := GrowFloor(previousFloor, floorIndex, fuel, MapGenerator.LaneSets(floors), S);
      if completed {
        forall n | n in AllNodes(floors) ensures n in previousFloor || n.NextNodes != [] {
          if n !in previousFloor {
            assert n.NextNodes == old(n.NextNodes);
          }
        }
      }
    }

    /** The floor grown on the top floor of the map, corrected and freed of
        duplicates, ready to be added: what PushFloor needs of it, the map's
        nodes then being S and the grown nodes C. */
    method BuildFloor(floorIndex: int, fuel: nat, ghost S: set<MapNode>)
      returns (floor: seq<MapNode>, C: seq<MapNode>, completed: bool)
      requires 0 < floorIndex == |floors| && AllNodes(floors) <= S && Linked(S)
      requires MapGenerator.Layered(floors) && LanesShaped(floors)
      requires Forward(Edges(S), AllNodes(floors)) && forall e :: e in Edges(S) ==> e.0.X + 1 < floorIndex
      requires TopReady(floors, S)
      modifies S`NextNodes, S`PreviousNodes, rng`Calls
      ensures forall k :: 0 <= k < |C| ==> fresh(C[k])
      ensures completed ==>
                NodesOf(floor) <= NodesOf(C) && Linked(S + NodesOf(C))
                && (forall k :: 0 <= k < |floor| ==> floor[k].X == |floors|)
                && LanesShaped(floors + [floor])
                && (forall n :: n in AllNodes(floors) ==> n.NextNodes != [])
                && Forward(Edges(S + NodesOf(C)), AllNodes(floors) + NodesOf(floor))
    {
      ghost var E := Edges(S);
      floor := [];
      C, completed := GrowTop(floorIndex, fuel, S);
      if !completed {
        return;
      }
      floor := SettleChecked(floors, floors[floorIndex - 1], C, floorIndex, MapGenerator.LaneSets(floors), S, E);
    }

    /** One pass of the floor loop of GenerateMap. */
    method NextFloor(floorIndex: int, fuel: nat, ghost S: set<MapNode>) returns (completed: bool, ghost S': set<MapNode>)
      requires 0 < floorIndex == |floors| && Shaped(floors, S)
      modifies this`floors, S`NextNodes, S`PreviousNodes, rng`Calls
      ensures completed ==> |floors| == floorIndex + 1 && Shaped(floors, S')
      ensures forall n :: n in S' ==> n in S || fresh(n)
    {
      S' := S;
      TopIsReady(floors, S);
      ForwardBelowTop(floors, Edges(S));
      var floor, C;
      floor, C, completed := BuildFloor(floorIndex, fuel, S);
      if !completed {
        return;
      }
      S' := S + NodesOf(C);
      PushFloor(floor, S');
    }

    /** GenerateMap, each do-while cut off after `fuel` draws: two starting
        nodes on floor 0 and floors 1 to NumFloors - 1 each grown on the one
        before. A run whose draws all succeed builds a shaped map of
        NumFloors floors. */
    method GenerateMap(fuel: nat) returns (completed: bool)
      modifies this`floors, rng`Calls
      ensures completed ==> |floors| == NumFloors && Shaped(floors, AllNodes(floors))
    {
      var a, b := StartFloor();
      ghost var S := {a, b};
      ShapedStart(floors, S, a, b);
      completed := AddFloors(fuel, S);
    }

    /** floors.Add(firstFloor): the two start nodes on lanes StartY1 and StartY2. */
    method StartFloor() returns (a: MapNode, b: MapNode)
      modifies this`floors
      ensures fresh(a) && fresh(b) && floors == [[a, b]]
      ensures a.X == 0 && b.X == 0 && a.Y == StartY1 && b.Y == StartY2
      ensures a.NextNodes == [] && a.PreviousNodes == [] && b.NextNodes == [] && b.PreviousNodes == []
    {
      a := new MapNode(0, StartY1);
      b := new MapNode(0, StartY2);
      floors := [[a, b]];
    }

    /** The floor loop of GenerateMap, from the start floor on. */
    method AddFloors(fuel: nat, ghost S: set<MapNode>) returns (completed: bool)
      requires |floors| == 1 && Shaped(floors, S)
      modifies this`floors, S`NextNodes, S`PreviousNodes, rng`Calls
      ensures completed ==> |floors| == NumFloors && Shaped(floors, AllNodes(floors))
    {
      ghost var S' := S;
      completed := true;
      for floorIndex := 1 to NumFloors
        invariant |floors| == floorIndex && Shaped(floors, S')
        invariant forall n :: n in S' ==> n in S || fresh(n)
      {
        completed, S' := NextFloor(floorIndex, fuel, S');
        if !completed {
          return;
        }
      }
      ShapedOwn(floors, S');
    }

    /** ValidateMaps: 10000 maps generated, each checked for two nodes of a
        floor on one lane and cleared. A run whose draws ran out stops the
        loop with `completed` false; every completed map passes. */
    method ValidateMaps(fuel: nat) returns (valid: bool, completed: bool)
      modifies this`floors, rng`Calls
      ensures completed ==> valid
      ensures floors == []
    {
      var num := 10000;
      valid, completed := true, true;
      for n := 1 to num + 1
        invariant valid && (n > 1 ==> floors == [])
      {
        completed := GenerateMap(fuel);
        if !completed {
          floors := [];
          return;
        }
        ShapedDistinct(floors, AllNodes(floors));
        valid := MapGenerator.CheckFloors(floors);
        floors := [];
        if !valid {
          return;
        }
      }
    }
  }
}
