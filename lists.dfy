/** The System.Collections.Generic.List<T> operations the map code uses, over
    immutable sequences: IndexOf, Contains and Remove (first occurrence). */
module Lists {

  /** No element occurs twice. */
  predicate NoDup<T(==)>(s: seq<T>) {
    forall i, j :: 0 <= i < j < |s| ==> s[i] != s[j]
  }

  /** List.IndexOf: the position of the first occurrence of `x`, or -1. */
  function IndexOf<T(==)>(s: seq<T>, x: T): (k: int)
    ensures -1 <= k < |s|
    ensures k == -1 <==> x !in s
    ensures 0 <= k ==> s[k] == x && x !in s[..k]
    decreases |s|
  {
    if |s| == 0 then -1
    else if s[0] == x then 0
    else
      var k := IndexOf(s[1..], x);
      assert s[1..] == s[..|s|][1..];
      if k == -1 then -1
      else
        assert s[..k + 1] == [s[0]] + s[1..][..k];
        k + 1
  }

  /** List.Remove: drops the first occurrence of `x`, keeping the order of
      the rest; a list without `x` is left as it is. */
  function RemoveFirst<T(==)>(s: seq<T>, x: T): (r: seq<T>)
    ensures x !in s ==> r == s
    ensures x in s ==> |r| == |s| - 1
  {
    if x !in s then s else s[..IndexOf(s, x)] + s[IndexOf(s, x) + 1..]
  }

  /** Remove takes away exactly one copy of `x`, if there is one. */
  lemma RemoveFirstMultiset<T>(s: seq<T>, x: T)
    ensures multiset(RemoveFirst(s, x)) == multiset(s) - multiset{x}
  {
    if x in s {
      DeleteAtMultiset(s, IndexOf(s, x));
    } else {
      assert multiset(s)[x] == 0;
    }
  }

  /** Deleting position `k` takes away one copy of `s[k]`. */
  lemma DeleteAtMultiset<T>(s: seq<T>, k: nat)
    requires k < |s|
    ensures multiset(s[..k] + s[k + 1..]) == multiset(s) - multiset{s[k]}
  {
    assert s == s[..k] + [s[k]] + s[k + 1..];
  }

  /** Deleting position `k` keeps a list duplicate-free and keeps exactly the
      elements other than `s[k]`. */
  lemma DeleteAtNoDup<T>(s: seq<T>, k: nat)
    requires NoDup(s) && k < |s|
    ensures NoDup(s[..k] + s[k + 1..])
    ensures forall y :: y in s[..k] + s[k + 1..] <==> y in s && y != s[k]
  {
    var r := s[..k] + s[k + 1..];
    assert forall i :: 0 <= i < |r| ==> r[i] == s[if i < k then i else i + 1];
    forall y | y in s && y != s[k] ensures y in r {
      var i :| 0 <= i < |s| && s[i] == y;
      assert r[if i < k then i else i - 1] == y;
    }
  }

  /** On a list without duplicates, Remove takes `x` out and keeps exactly the
      other elements. */
  lemma RemoveFirstNoDup<T>(s: seq<T>, x: T)
    requires NoDup(s)
    ensures NoDup(RemoveFirst(s, x))
    ensures forall y :: y in RemoveFirst(s, x) <==> y in s && y != x
  {
    if x in s {
      DeleteAtNoDup(s, IndexOf(s, x));
    }
  }

  /** Appending an element not yet present keeps a list duplicate-free. */
  lemma AppendNoDup<T>(s: seq<T>, x: T)
    requires NoDup(s) && x !in s
    ensures NoDup(s + [x])
  {
  }

  /** A list without duplicates whose elements all occur in `pool` is no
      longer than `pool`. */
  lemma {:induction false} NoDupBound<T>(s: seq<T>, pool: seq<T>)
    requires NoDup(s) && forall x :: x in s ==> x in pool
    ensures |s| <= |pool|
    decreases |s|
  {
    if s != [] {
      var x := s[0];
      var rest := RemoveFirst(pool, x);
      RemoveFirstMultiset(pool, x);
      forall y | y in s[1..] ensures y in rest {
        var i :| 0 <= i < |s| - 1 && s[1..][i] == y;
        assert s[i + 1] == y && y != x && y in pool;
        assert y in multiset(pool);
        assert y in multiset(rest);
      }
      NoDupBound(s[1..], rest);
    }
  }

  /** What a series of "add unless already present" steps builds from s:
      the first occurrence of every element, in order. */
  function Dedup<T(==)>(s: seq<T>): (r: seq<T>)
    ensures NoDup(r)
    ensures forall i :: 0 <= i < |r| ==> r[i] in s
    ensures forall i :: 0 <= i < |s| ==> s[i] in r
  {
    if s == [] then []
    else
      var d := Dedup(s[..|s| - 1]);
      assert s == s[..|s| - 1] + [s[|s| - 1]];
      if s[|s| - 1] in d then d else d + [s[|s| - 1]]
  }

  /** A list without duplicates is its own Dedup. */
  lemma {:induction false} DedupNoDup<T>(s: seq<T>)
    requires NoDup(s)
    ensures Dedup(s) == s
    decreases |s|
  {
    if s != [] {
      var p := s[..|s| - 1];
      assert NoDup(p);
      DedupNoDup(p);
      assert s[|s| - 1] !in p;
      assert s == p + [s[|s| - 1]];
    }
  }

  /** Every entry of idx is a position of a list of length n. */
  predicate InRange(idx: seq<int>, n: int) {
    forall t :: 0 <= t < |idx| ==> 0 <= idx[t] < n
  }

  /** Every element of xs occurs in s. */
  predicate AllIn<T(==)>(xs: seq<T>, s: seq<T>) {
    forall t :: 0 <= t < |xs| ==> xs[t] in s
  }

  /** The elements of s at the positions idx, in the order of idx. */
  function Targets<T>(s: seq<T>, idx: seq<int>): (r: seq<T>)
    requires InRange(idx, |s|)
    ensures |r| == |idx| && forall t :: 0 <= t < |idx| ==> r[t] == s[idx[t]]
  {
    seq(|idx|, t requires 0 <= t < |idx| => s[idx[t]])
  }

  /** For every element of xs, in order, its position in s (IndexOf); the
      elements s does not contain are skipped. */
  function IndicesIn<T(==)>(xs: seq<T>, s: seq<T>): (r: seq<int>)
    ensures InRange(r, |s|)
  {
    if xs == [] then []
    else
      var k := IndexOf(s, xs[|xs| - 1]);
      IndicesIn(xs[..|xs| - 1], s) + (if k == -1 then [] else [k])
  }

  /** When s contains every element of xs, IndicesIn is IndexOf pointwise. */
  lemma {:induction false} IndicesInAll<T>(xs: seq<T>, s: seq<T>)
    requires AllIn(xs, s)
    ensures |IndicesIn(xs, s)| == |xs|
    ensures forall t :: 0 <= t < |xs| ==> IndicesIn(xs, s)[t] == IndexOf(s, xs[t])
    decreases |xs|
  {
    if xs != [] {
      var p := xs[..|xs| - 1];
      var x := xs[|xs| - 1];
      assert AllIn(p, s) by {
        forall t | 0 <= t < |p| ensures p[t] in s {
          assert p[t] == xs[t];
        }
      }
      IndicesInAll(p, s);
      var k := IndexOf(s, x);
      assert k != -1;
      var r := IndicesIn(xs, s);
      assert r == IndicesIn(p, s) + [k];
      forall t | 0 <= t < |xs| ensures r[t] == IndexOf(s, xs[t]) {
        if t < |p| {
          assert r[t] == IndicesIn(p, s)[t] && xs[t] == p[t];
        }
      }
    }
  }

  /** Indices read back: the elements at the recorded positions are the
      elements recorded, when all of them occur in s. */
  lemma TargetsOfIndices<T>(xs: seq<T>, s: seq<T>)
    requires AllIn(xs, s)
    ensures Targets(s, IndicesIn(xs, s)) == xs
  {
    IndicesInAll(xs, s);
  }

  /** Positions read back: on a list without duplicates, the positions of
      the elements at idx are idx. */
  lemma IndicesOfTargets<T>(s: seq<T>, idx: seq<int>)
    requires NoDup(s) && InRange(idx, |s|)
    ensures IndicesIn(Targets(s, idx), s) == idx
  {
    var xs := Targets(s, idx);
    assert AllIn(xs, s);
    IndicesInAll(xs, s);
    forall t | 0 <= t < |idx| ensures IndicesIn(xs, s)[t] == idx[t] {
      var k := IndexOf(s, xs[t]);
      assert s[k] == s[idx[t]];
    }
  }

  /** Distinct elements, all in s, have distinct positions. */
  lemma IndicesNoDup<T>(xs: seq<T>, s: seq<T>)
    requires NoDup(xs) && AllIn(xs, s)
    ensures NoDup(IndicesIn(xs, s))
  {
    IndicesInAll(xs, s);
    var r := IndicesIn(xs, s);
    forall i, j | 0 <= i < j < |r| ensures r[i] != r[j] {
      assert s[r[i]] == xs[i] && s[r[j]] == xs[j];
    }
  }

  /** Distinct positions of a list without duplicates hold distinct
      elements. */
  lemma TargetsNoDup<T>(s: seq<T>, idx: seq<int>)
    requires NoDup(s) && NoDup(idx) && InRange(idx, |s|)
    ensures NoDup(Targets(s, idx))
  {
    var r := Targets(s, idx);
    forall i, j | 0 <= i < j < |r| ensures r[i] != r[j] {
      assert idx[i] != idx[j];
    }
  }

  /** Nothing is recorded for elements s does not hold. */
  lemma {:induction false} IndicesInNone<T>(xs: seq<T>, s: seq<T>)
    requires forall t :: 0 <= t < |xs| ==> xs[t] !in s
    ensures IndicesIn(xs, s) == []
    decreases |xs|
  {
    if xs != [] {
      var p := xs[..|xs| - 1];
      assert forall t :: 0 <= t < |p| ==> p[t] == xs[t];
      IndicesInNone(p, s);
      assert IndexOf(s, xs[|xs| - 1]) == -1;
    }
  }
}
