/** The edge relation of a set of map nodes as a set of pairs, the edge
    changes Connect and Disconnect make to it, and the renaming that merging
    one node into another applies to it. */
module EdgeSets {
  import opened Lists
  import opened MapNodes

  type Edge = (MapNode, MapNode)

  /** The edges among the nodes of S. */
  ghost function Edges(S: set<MapNode>): set<Edge>
    reads S`NextNodes
  {
    set a, b | a in S && b in a.NextNodes :: (a, b)
  }

  /** a -> b is an edge among S exactly when a is in S and lists b. */
  lemma EdgeIn(S: set<MapNode>, e: Edge)
    ensures e in Edges(S) <==> e.0 in S && e.1 in e.0.NextNodes
  {
  }

  /** Connect, seen on the edge set: the edge a -> b is there afterwards and
      nothing else changes. */
  method ConnectEdge(a: MapNode, b: MapNode, ghost S: set<MapNode>)
    requires Linked(S) && a in S && b in S
    modifies a`NextNodes, b`PreviousNodes
    ensures Linked(S) && Edges(S) == old(Edges(S)) + {(a, b)}
    ensures b !in old(a.NextNodes) ==>
              a.NextNodes == old(a.NextNodes) + [b] && b.PreviousNodes == old(b.PreviousNodes) + [a]
  {
    a.Connect(b, S);
    forall e | e in Edges(S) ensures e in old(Edges(S)) + {(a, b)} {
      if e.0 != a {
        assert e.1 in old(e.0.NextNodes);
      }
    }
    forall e | e in old(Edges(S)) ensures e in Edges(S) {
      assert e.1 in e.0.NextNodes;
    }
  }

  /** A node without edges adds none: no node of a linked S lists one
      outside S, and it lists no successor. */
  lemma EdgesAddIsolated(S: set<MapNode>, c: MapNode)
    requires Linked(S) && c !in S && c.NextNodes == []
    ensures Edges(S + {c}) == Edges(S)
  {
    forall e | e in Edges(S + {c}) ensures e in Edges(S) {
      EdgeIn(S + {c}, e);
      EdgeIn(S, e);
    }
  }

  /** Disconnect, seen on the edge set: the edge a -> b is gone afterwards
      and nothing else changes. */
  method DisconnectEdge(a: MapNode, b: MapNode, ghost S: set<MapNode>)
    requires Linked(S) && a in S && b in S
    modifies a`NextNodes, b`PreviousNodes
    ensures Linked(S) && Edges(S) == old(Edges(S)) - {(a, b)}
    ensures a.NextNodes == RemoveFirst(old(a.NextNodes), b)
    ensures b.PreviousNodes == RemoveFirst(old(b.PreviousNodes), a)
  {
    a.Disconnect(b, S);
    RemoveFirstNoDup(old(a.NextNodes), b);
    forall e | e in Edges(S) ensures e in old(Edges(S)) - {(a, b)} {
      assert e.1 in old(e.0.NextNodes);
    }
    forall e | e in old(Edges(S)) - {(a, b)} ensures e in Edges(S) {
      assert e.1 in e.0.NextNodes;
    }
    if b !in old(a.NextNodes) {
      assert a !in old(b.PreviousNodes);
    }
  }

  /** One more element added to both sides of E == E0 + F. */
  lemma UnionStep<T>(E: set<T>, E0: set<T>, F: set<T>, F': set<T>, x: T)
    requires E == E0 + F && F' == F + {x}
    ensures E + {x} == E0 + F'
  {
  }

  /** One more element taken from both sides of E == E0 - F. */
  lemma DiffStep<T>(E: set<T>, E0: set<T>, F: set<T>, F': set<T>, x: T)
    requires E == E0 - F && F' == F + {x}
    ensures E - {x} == E0 - F'
  {
  }

  lemma Absorb<T>(E: set<T>, x: T)
    requires x in E
    ensures E + {x} == E
  {
  }

  /** x with b replaced by a. */
  function Rename(x: MapNode, b: MapNode, a: MapNode): MapNode {
    if x == b then a else x
  }

  /** The edge set after every endpoint b is replaced by a. */
  ghost function RenameEdges(E: set<Edge>, b: MapNode, a: MapNode): (r: set<Edge>)
  {
    set e | e in E :: (Rename(e.0, b, a), Rename(e.1, b, a))
  }

  /** x with every key of rho replaced by its image. */
  function RenameBy(rho: map<MapNode, MapNode>, x: MapNode): MapNode {
    if x in rho then rho[x] else x
  }

  /** The edge set after every endpoint is renamed by rho. */
  ghost function RenameEdgesBy(E: set<Edge>, rho: map<MapNode, MapNode>): (r: set<Edge>)
  {
    set e | e in E :: (RenameBy(rho, e.0), RenameBy(rho, e.1))
  }

  /** No edge of E joins two nodes of F. */
  ghost predicate NoEdgeWithin(E: set<Edge>, F: set<MapNode>) {
    forall e :: e in E ==> !(e.0 in F && e.1 in F)
  }

  /** Renaming with the identity map changes nothing. */
  lemma RenameNone(E: set<Edge>)
    ensures RenameEdgesBy(E, map[]) == E
  {
    forall e | e in E ensures e in RenameEdgesBy(E, map[]) {
      assert (RenameBy(map[], e.0), RenameBy(map[], e.1)) == e;
    }
  }

  /** Renaming b to a after renaming by rho is renaming by rho extended with
      b := a, provided b is neither renamed nor a target of rho and a is not
      renamed. */
  lemma RenameCompose(E: set<Edge>, rho: map<MapNode, MapNode>, b: MapNode, a: MapNode)
    requires b !in rho && a !in rho
    requires forall k :: k in rho ==> rho[k] != b
    ensures RenameEdges(RenameEdgesBy(E, rho), b, a) == RenameEdgesBy(E, rho[b := a])
  {
    var rho' := rho[b := a];
    var L := RenameEdges(RenameEdgesBy(E, rho), b, a);
    var R := RenameEdgesBy(E, rho');
    forall e | e in L ensures e in R {
      var d :| d in RenameEdgesBy(E, rho) && e == (Rename(d.0, b, a), Rename(d.1, b, a));
      var c :| c in E && d == (RenameBy(rho, c.0), RenameBy(rho, c.1));
      RenameStep(rho, b, a, c.0);
      RenameStep(rho, b, a, c.1);
      assert e == (RenameBy(rho', c.0), RenameBy(rho', c.1));
    }
    forall e | e in R ensures e in L {
      var c :| c in E && e == (RenameBy(rho', c.0), RenameBy(rho', c.1));
      var d := (RenameBy(rho, c.0), RenameBy(rho, c.1));
      RenameStep(rho, b, a, c.0);
      RenameStep(rho, b, a, c.1);
      assert d in RenameEdgesBy(E, rho);
      assert e == (Rename(d.0, b, a), Rename(d.1, b, a));
    }
  }

  lemma RenameStep(rho: map<MapNode, MapNode>, b: MapNode, a: MapNode, x: MapNode)
    requires b !in rho && forall k :: k in rho ==> rho[k] != b
    ensures Rename(RenameBy(rho, x), b, a) == RenameBy(rho[b := a], x)
  {
  }

  /** Renaming between two nodes of F keeps F free of inner edges. */
  lemma RenameKeepsNoEdgeWithin(E: set<Edge>, F: set<MapNode>, b: MapNode, a: MapNode)
    requires NoEdgeWithin(E, F) && a in F && b in F
    ensures NoEdgeWithin(RenameEdges(E, b, a), F)
  {
    forall e | e in RenameEdges(E, b, a) ensures !(e.0 in F && e.1 in F) {
      var d :| d in E && e == (Rename(d.0, b, a), Rename(d.1, b, a));
    }
  }

  /** The effect of merging b into a on the edge set: b's edges are moved to
      a (xs are b's successors, ps its predecessors). When no edge joins a
      and b and b has no self-edge, that is renaming b to a. */
  lemma MergeIsRename(E: set<Edge>, a: MapNode, b: MapNode, xs: seq<MapNode>, ps: seq<MapNode>)
    requires a != b && (a, b) !in E && (b, a) !in E && (b, b) !in E
    requires forall x :: (b, x) in E <==> x in xs
    requires forall p :: (p, b) in E <==> p in ps
    ensures (E + EdgesFrom(a, xs, |xs|) + EdgesTo(ps, a, |ps|)) - EdgesFrom(b, xs, |xs|) - EdgesTo(ps, b, |ps|)
            == RenameEdges(E, b, a)
  {
    var A, B := EdgesFrom(a, xs, |xs|), EdgesTo(ps, a, |ps|);
    var C, D := EdgesFrom(b, xs, |xs|), EdgesTo(ps, b, |ps|);
    var L := (E + A + B) - C - D;
    var R := RenameEdges(E, b, a);
    forall x | x in xs ensures (b, x) in C {
      var k :| 0 <= k < |xs| && xs[k] == x;
    }
    forall p | p in ps ensures (p, b) in D {
      var k :| 0 <= k < |ps| && ps[k] == p;
    }
    forall e | e in L ensures e in R {
      if e in E {
        assert e == (Rename(e.0, b, a), Rename(e.1, b, a));
      } else if e in A {
        var k :| 0 <= k < |xs| && e == (a, xs[k]);
        assert xs[k] != b;
        assert (b, xs[k]) in E;
        assert e == (Rename(b, b, a), Rename(xs[k], b, a));
      } else {
        var k :| 0 <= k < |ps| && e == (ps[k], a);
        assert ps[k] != b;
        assert (ps[k], b) in E;
        assert e == (Rename(ps[k], b, a), Rename(b, b, a));
      }
    }
    forall e | e in R ensures e in L {
      var d :| d in E && e == (Rename(d.0, b, a), Rename(d.1, b, a));
      if d.0 == b {
        var k :| 0 <= k < |xs| && xs[k] == d.1;
        assert e == (a, xs[k]) && e in A;
      } else if d.1 == b {
        var k :| 0 <= k < |ps| && ps[k] == d.0;
        assert e == (ps[k], a) && e in B;
      } else {
        assert e == d;
      }
    }
  }

  /** The edges a -> xs[k], for the first t entries of xs. */
  ghost function EdgesFrom(a: MapNode, xs: seq<MapNode>, t: int): set<Edge>
    requires 0 <= t <= |xs|
  {
    set k | 0 <= k < t :: (a, xs[k])
  }

  /** The edges ps[k] -> a, for the first t entries of ps. */
  ghost function EdgesTo(ps: seq<MapNode>, a: MapNode, t: int): set<Edge>
    requires 0 <= t <= |ps|
  {
    set k | 0 <= k < t :: (ps[k], a)
  }

  lemma EdgesFromStep(a: MapNode, xs: seq<MapNode>, t: int)
    requires 0 <= t < |xs|
    ensures EdgesFrom(a, xs, t + 1) == EdgesFrom(a, xs, t) + {(a, xs[t])}
  {
  }

  lemma EdgesToStep(ps: seq<MapNode>, a: MapNode, t: int)
    requires 0 <= t < |ps|
    ensures EdgesTo(ps, a, t + 1) == EdgesTo(ps, a, t) + {(ps[t], a)}
  {
  }

  /** A renaming whose targets are never renamed leaves no edge at a
      renamed node. */
  lemma RenamedAvoidsKeys(E: set<Edge>, rho: map<MapNode, MapNode>)
    requires forall k :: k in rho ==> rho[k] !in rho
    ensures forall e :: e in RenameEdgesBy(E, rho) ==> e.0 !in rho && e.1 !in rho
  {
  }

  /** When no edge joins two nodes of F and only nodes of F are renamed, an
      edge at a renamed node k becomes the same edge at k's image. */
  lemma RenamedEdgesMove(E: set<Edge>, rho: map<MapNode, MapNode>, F: set<MapNode>)
    requires NoEdgeWithin(E, F) && rho.Keys <= F
    ensures forall k, x :: k in rho && (k, x) in E ==> (rho[k], x) in RenameEdgesBy(E, rho)
    ensures forall k, p :: k in rho && (p, k) in E ==> (p, rho[k]) in RenameEdgesBy(E, rho)
    ensures forall e :: e in E && e.0 !in rho && e.1 !in rho ==> e in RenameEdgesBy(E, rho)
  {
    forall k, x | k in rho && (k, x) in E ensures (rho[k], x) in RenameEdgesBy(E, rho) {
      assert (RenameBy(rho, k), RenameBy(rho, x)) == (rho[k], x);
    }
    forall k, p | k in rho && (p, k) in E ensures (p, rho[k]) in RenameEdgesBy(E, rho) {
      assert (RenameBy(rho, p), RenameBy(rho, k)) == (p, rho[k]);
    }
    forall e | e in E && e.0 !in rho && e.1 !in rho ensures e in RenameEdgesBy(E, rho) {
      assert (RenameBy(rho, e.0), RenameBy(rho, e.1)) == e;
    }
  }
}
