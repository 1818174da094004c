/** Spell definitions as values: what the two loaders of the game
    (Assets/SpellLoader.cs and Assets/FileOperationsManager.cs) make out of
    one parsed JSON entry, and the loop both of them run over the entries. */
module SpellDefs {
  import opened Combatants

  /** The concrete subclass of Spell an entry becomes (Assets/Spell.cs). */
  datatype SpellKind = AttackSpell | RestoreSpell

  /** A spell as its constructor arguments; the sprite is not modelled. */
  datatype SpellDef = SpellDef(kind: SpellKind, name: string, power: int, mpCost: int,
                               cooldown: int, mode: TargetingMode, element: Element)

  /** What a loader does with one entry: the entry throws (an enum name that
      System.Enum.Parse rejects), is skipped, or yields a spell. */
  datatype Created = Thrown | Skipped | Made(def: SpellDef)

  /** The state of a foreach over the entries once it has stopped: the spells
      appended so far, and whether it reached the end without an exception. */
  datatype Outcome = Outcome(made: seq<SpellDef>, ok: bool)

  /** Runs `f` over the entries in order, appending what it makes and stopping
      at the first entry that throws. */
  function Collect<T>(entries: seq<T>, f: T -> Created): (r: Outcome)
    ensures |r.made| <= |entries|
    decreases |entries|
  {
    if entries == [] then Outcome([], true)
    else
      match f(entries[0])
      case Thrown => Outcome([], false)
      case Skipped => Collect(entries[1..], f)
      case Made(d) => var rest := Collect(entries[1..], f); Outcome([d] + rest.made, rest.ok)
  }

  /** The loop finishes exactly when no entry throws; every spell it appends
      was made from some entry. */
  lemma {:induction false} CollectFacts<T>(entries: seq<T>, f: T -> Created)
    ensures Collect(entries, f).ok <==> forall i :: 0 <= i < |entries| ==> !f(entries[i]).Thrown?
    ensures forall k :: 0 <= k < |Collect(entries, f).made| ==>
              exists i :: 0 <= i < |entries| && f(entries[i]) == Made(Collect(entries, f).made[k])
    decreases |entries|
  {
    if entries != [] {
      var tail := entries[1..];
      CollectFacts(tail, f);
      assert forall i :: 0 < i < |entries| ==> entries[i] == tail[i - 1];
      var r := Collect(entries, f);
      match f(entries[0])
      case Thrown =>
      case Skipped =>
        forall k | 0 <= k < |r.made|
          ensures exists i :: 0 <= i < |entries| && f(entries[i]) == Made(r.made[k])
        {
          var i :| 0 <= i < |tail| && f(tail[i]) == Made(r.made[k]);
          assert entries[i + 1] == tail[i];
        }
      case Made(d) =>
        forall k | 0 <= k < |r.made|
          ensures exists i :: 0 <= i < |entries| && f(entries[i]) == Made(r.made[k])
        {
          if k == 0 {
            assert f(entries[0]) == Made(r.made[0]);
          } else {
            assert r.made[k] == Collect(tail, f).made[k - 1];
            var i :| 0 <= i < |tail| && f(tail[i]) == Made(r.made[k]);
            assert entries[i + 1] == tail[i];
          }
        }
    }
  }

  /** The loop handles the entries one after another: loading `a + b` is
      loading `a` and, if that raised no exception, then loading `b`. With
      CollectFacts this fixes the order of the result. */
  lemma {:induction false} CollectAppend<T>(a: seq<T>, b: seq<T>, f: T -> Created)
    ensures Collect(a + b, f) ==
              if Collect(a, f).ok then Outcome(Collect(a, f).made + Collect(b, f).made, Collect(b, f).ok)
              else Collect(a, f)
    decreases |a|
  {
    if a == [] {
      assert a + b == b;
    } else {
      assert (a + b)[0] == a[0];
      assert (a + b)[1..] == a[1..] + b;
      CollectAppend(a[1..], b, f);
      match f(a[0])
      case Thrown =>
      case Skipped =>
      case Made(d) =>
        assert [d] + (Collect(a[1..], f).made + Collect(b, f).made)
            == ([d] + Collect(a[1..], f).made) + Collect(b, f).made;
    }
  }

  /** A loop that has handled `entries[..i]` without an exception and moves on
      to entry `i`. */
  lemma CollectStep<T>(entries: seq<T>, i: nat, f: T -> Created)
    requires i < |entries|
    ensures Collect(entries[i..], f) ==
              match f(entries[i])
              case Thrown => Outcome([], false)
              case Skipped => Collect(entries[i + 1..], f)
              case Made(d) => Outcome([d] + Collect(entries[i + 1..], f).made, Collect(entries[i + 1..], f).ok)
  {
    assert entries[i..][0] == entries[i];
    assert entries[i..][1..] == entries[i + 1..];
  }

  /** The loop's result once `made` is appended and the rest still runs. */
  function Resume(made: seq<SpellDef>, rest: Outcome): (r: Outcome)
    ensures r.ok == rest.ok && |r.made| == |made| + |rest.made|
  {
    Outcome(made + rest.made, rest.ok)
  }

  lemma ResumeMade(made: seq<SpellDef>, d: SpellDef, rest: Outcome)
    ensures Resume(made, Outcome([d] + rest.made, rest.ok)) == Resume(made + [d], rest)
  {
    assert made + ([d] + rest.made) == (made + [d]) + rest.made;
  }

  /** The Spell object `s` is the attack spell `d` describes. */
  predicate Describes(s: Spell, d: SpellDef) {
    d.kind == AttackSpell && s.Name == d.name && s.Power == d.power && s.MPCost == d.mpCost
    && s.Cooldown == d.cooldown && s.TargetingMode == d.mode && s.Element == d.element
  }

  /** Each spell of the list is the attack spell the definition beside it
      describes. */
  predicate DescribesAll(spells: seq<Spell>, defs: seq<SpellDef>) {
    |spells| == |defs| && forall k :: 0 <= k < |spells| ==> Describes(spells[k], defs[k])
  }

  lemma DescribesAllAppend(spells: seq<Spell>, defs: seq<SpellDef>, s: Spell, d: SpellDef)
    requires DescribesAll(spells, defs) && Describes(s, d)
    ensures DescribesAll(spells + [s], defs + [d])
  {
  }
}
