/** Assets/CombatManager.cs: the turn state machine of a battle. The player
    clicks units and spells; the enemies act in one pass; the manager decides
    whose turn it is from the units' canAct flags. Layout, sprites, the
    message log and the coroutine pauses are not part of this model. */
module Combat {
  import opened UnityMath
  import opened Text
  import opened Lists
  import opened Combatants

  datatype TurnState = INIT | PLAYER | ENEMY | ENEMYPROCESSING | RESULT

  /** What CheckBattleEndConditions reports: an empty party is a defeat (even
      when the enemies are gone too), otherwise no enemies is a victory. */
  datatype BattleEnd = Ongoing | Defeat | Victory

  function BattleEndOf(playerCount: nat, enemyCount: nat): (r: BattleEnd)
    ensures r == Defeat <==> playerCount == 0
    ensures r == Victory <==> playerCount > 0 && enemyCount == 0
    ensures r == Ongoing <==> playerCount > 0 && enemyCount > 0
  {
    if playerCount == 0 then Defeat else if enemyCount == 0 then Victory else Ongoing
  }

  /** The keys of a level configuration: the comma-separated pieces, each
      trimmed. */
  function LevelKeys(config: string): (keys: seq<string>)
    ensures |keys| == |Split(config, ',')|
    ensures forall i :: 0 <= i < |keys| ==> keys[i] == Trim(Split(config, ',')[i])
  {
    TrimAll(Split(config, ','))
  }

  function TrimAll(pieces: seq<string>): (keys: seq<string>)
    ensures |keys| == |pieces|
    ensures forall i :: 0 <= i < |pieces| ==> keys[i] == Trim(pieces[i])
  {
    seq(|pieces|, i requires 0 <= i < |pieces| => Trim(pieces[i]))
  }

  /** The definitions of the known keys, in key order; unknown keys are
      skipped. */
  function KnownDefs<T>(keys: seq<string>, defs: map<string, T>): (r: seq<T>)
    ensures |r| <= |keys|
    decreases |keys|
  {
    if keys == [] then []
    else if keys[0] in defs then [defs[keys[0]]] + KnownDefs(keys[1..], defs)
    else KnownDefs(keys[1..], defs)
  }

  /** Every enemy of the level is the definition of one of its keys; when
      every key is known the enemies are the keys' definitions one for one;
      when none is, the level is empty. */
  lemma {:induction false} KnownDefsFacts<T>(keys: seq<string>, defs: map<string, T>)
    ensures forall x :: x in KnownDefs(keys, defs) ==> exists k :: k in keys && k in defs && defs[k] == x
    ensures (forall k :: k in keys ==> k in defs) ==>
              |KnownDefs(keys, defs)| == |keys|
              && forall i :: 0 <= i < |keys| ==> KnownDefs(keys, defs)[i] == defs[keys[i]]
    ensures (forall k :: k in keys ==> k !in defs) ==> KnownDefs(keys, defs) == []
    decreases |keys|
  {
    if keys != [] {
      KnownDefsFacts(keys[1..], defs);
      assert forall k :: k in keys[1..] ==> k in keys;
    }
  }

  lemma KnownDefsStep<T>(keys: seq<string>, i: nat, defs: map<string, T>)
    requires i < |keys|
    ensures KnownDefs(keys[i..], defs)
            == (if keys[i] in defs then [defs[keys[i]]] else []) + KnownDefs(keys[i + 1..], defs)
  {
    assert keys[i..][0] == keys[i] && keys[i..][1..] == keys[i + 1..];
  }

  /** The foreach loop of Start that builds one level's enemy list. */
  method LevelEnemies<T>(currentLevelConfig: string, enemyDefs: map<string, T>) returns (enemyData: seq<T>)
    ensures enemyData == KnownDefs(LevelKeys(currentLevelConfig), enemyDefs)
  {
    enemyData := CollectDefs(Split(currentLevelConfig, ','), enemyDefs);
  }

  method CollectDefs<T>(pieces: seq<string>, enemyDefs: map<string, T>) returns (enemyData: seq<T>)
    ensures enemyData == KnownDefs(TrimAll(pieces), enemyDefs)
  {
    ghost var keys := TrimAll(pieces);
    enemyData := [];
    var i := 0;
    while i < |pieces|
      invariant 0 <= i <= |pieces|
      invariant enemyData + KnownDefs(keys[i..], enemyDefs) == KnownDefs(keys, enemyDefs)
    {
      var trimmedType := Trim(pieces[i]);
      KnownDefsStep(keys, i, enemyDefs);
      if trimmedType in enemyDefs {
        enemyData := enemyData + [enemyDefs[trimmedType]];
      }
      i := i + 1;
    }
  }


  /** The units `U` and the spells `S` are in the state `f` describes. */
  ghost predicate Agrees(f: Field, U: set<Unit>, S: set<Spell>)
    reads U`currHP, U`currMP, U`canAct, S`remainingCooldown
  {
    (forall u :: u in U ==> FighterOf(f, u) == Fighter(u.currHP, u.currMP, u.canAct))
    && (forall s :: s in S ==> CooldownOf(f, s) == s.remainingCooldown)
  }

  /** `B` holds the spell lists of the units `U`. */
  ghost predicate Describes(B: Spellbooks, U: set<Unit>)
    reads U`AvailableSpells
  {
    forall u :: u in U ==> u in B && B[u] == u.AvailableSpells
  }

  /** A unit that may be chosen as the target of a spell with this targeting
      mode: an enemy for Enemy, a player unit for Ally, the active unit itself
      for Self; no unit for the other modes. */
  predicate Accepts(mode: TargetingMode, unit: Unit, active: Unit?) {
    (mode.Enemy? && !unit.isPlayerUnit) || (mode.Ally? && unit.isPlayerUnit) || (mode.Self? && unit == active)
  }

  lemma AcceptsOnlySingleTarget(mode: TargetingMode, unit: Unit, active: Unit?)
    requires Accepts(mode, unit, active)
    ensures mode.Enemy? || mode.Ally? || mode.Self?
  {
  }

  /** A spell the enemy may cast now: off cooldown and affordable. */
  predicate Castable(spell: Spell, caster: Unit)
    reads spell`remainingCooldown, caster`currMP
  {
    spell.IsReady() && caster.CanAffordCast(spell.MPCost)
  }

  // The enemy turn as a function of the battle's state. What a turn changes
  // about the units and spells is a Field; the units' spell lists, which a
  // turn only reads, are Spellbooks.

  /** The spell list of each unit. */
  type Spellbooks = map<Unit, seq<Spell>>

  /** A battle's changing state: the fighter state of its units and the
      remaining cooldown of their spells. */
  datatype Field = Field(fighters: map<Unit, Fighter>, cooldowns: map<Spell, int>)

  function FighterOf(f: Field, u: Unit): Fighter {
    if u in f.fighters then f.fighters[u] else Fighter(0, 0, false)
  }

  function CooldownOf(f: Field, s: Spell): int {
    if s in f.cooldowns then f.cooldowns[s] else 0
  }

  function SpellsOf(books: Spellbooks, u: Unit): seq<Spell> {
    if u in books then books[u] else []
  }

  /** AttackSpell.Execute on the battle state, in the source's order: the
      caster pays, the target is hit, the cooldown restarts, the caster's
      action is spent. A spell that is not ready changes nothing. */
  function CastOn(f: Field, books: Spellbooks, spell: Spell, caster: Unit, target: Unit): Field {
    if CooldownOf(f, spell) != 0 then f
    else
      var c := FighterOf(f, caster);
      var paid := f.fighters[caster := c.(mp := Clamp(c.mp - spell.MPCost, 0, caster.maxMP))];
      var t := if target in paid then paid[target] else Fighter(0, 0, false);
      var hp := Clamp(t.hp - spell.HitDamage(caster, target),
                      0, target.maxHP);
      var hit := paid[target := t.(hp := hp, canAct := t.canAct && hp > 0)];
      Field(hit[caster := hit[caster].(canAct := false)], f.cooldowns[spell := spell.Cooldown])
  }

  /** What a cast changes: a spell that is not ready changes nothing; a
      ready one spends the caster's action, restarts its own cooldown,
      charges the caster and hits the target; every other unit and spell is
      left as it was. */
  lemma CastOnEffect(f: Field, books: Spellbooks, spell: Spell, caster: Unit, target: Unit)
    ensures var r := CastOn(f, books, spell, caster, target);
            (CooldownOf(f, spell) != 0 ==> r == f)
            && (CooldownOf(f, spell) == 0 ==>
                  !FighterOf(r, caster).canAct && CooldownOf(r, spell) == spell.Cooldown
                  && FighterOf(r, caster).mp
                     == Clamp(FighterOf(f, caster).mp - spell.MPCost, 0, caster.maxMP)
                  && FighterOf(r, target).hp
                     == Clamp(FighterOf(f, target).hp - spell.HitDamage(caster, target),
                              0, target.maxHP))
            && (CooldownOf(f, spell) == 0 && caster != target ==>
                  FighterOf(r, caster).hp == FighterOf(f, caster).hp
                  && FighterOf(r, target).mp == FighterOf(f, target).mp
                  && FighterOf(r, target).canAct == (FighterOf(f, target).canAct && FighterOf(r, target).hp > 0))
            && (forall u :: u != caster && u != target ==> FighterOf(r, u) == FighterOf(f, u))
            && (forall s :: s != spell ==> CooldownOf(r, s) == CooldownOf(f, s))
  {
  }

  /** Castable over a battle state. */
  predicate CanCast(f: Field, spell: Spell, caster: Unit) {
    CooldownOf(f, spell) == 0 && FighterOf(f, caster).mp >= spell.MPCost
  }

  /** The first spell of `spells` the caster can cast, or null. */
  function FirstCastable(f: Field, spells: seq<Spell>, caster: Unit): (r: Spell?)
    ensures r == null <==> forall s :: s in spells ==> !CanCast(f, s, caster)
    ensures r != null ==> exists k :: 0 <= k < |spells| && r == spells[k] && CanCast(f, r, caster)
                                      && forall j :: 0 <= j < k ==> !CanCast(f, spells[j], caster)
    decreases |spells|
  {
    if spells == [] then null
    else if CanCast(f, spells[0], caster) then spells[0]
    else
      var r := FirstCastable(f, spells[1..], caster);
      if r != null then
        var k :| 0 <= k < |spells[1..]| && r == spells[1..][k] && CanCast(f, r, caster)
                 && forall j :: 0 <= j < k ==> !CanCast(f, spells[1..][j], caster);
        assert r == spells[k + 1] && forall j :: 0 <= j < k + 1 ==> !CanCast(f, spells[j], caster);
        r
      else
        assert forall s :: s in spells ==> s == spells[0] || s in spells[1..];
        r
  }

  /** ChooseSpellForEnemy over a battle state, given its random index. */
  function Choose(f: Field, spells: seq<Spell>, caster: Unit, pick: nat): (r: Spell?)
    requires pick < |spells|
    ensures r != null ==> r in spells && CanCast(f, r, caster)
    ensures r == null <==> forall s :: s in spells ==> !CanCast(f, s, caster)
  {
    if CanCast(f, spells[pick], caster) then spells[pick] else FirstCastable(f, spells, caster)
  }

  /** A result characterised as ChooseSpellForEnemy's is Choose's. */
  lemma ChoiceIs(f: Field, spells: seq<Spell>, caster: Unit, pick: nat, r: Spell?)
    requires pick < |spells|
    requires CanCast(f, spells[pick], caster) ==> r == spells[pick]
    requires !CanCast(f, spells[pick], caster) ==>
               (r == null <==> forall s :: s in spells ==> !CanCast(f, s, caster))
               && (r != null ==> exists k :: 0 <= k < |spells| && r == spells[k] && CanCast(f, r, caster)
                                  && forall j :: 0 <= j < k ==> !CanCast(f, spells[j], caster))
    ensures r == Choose(f, spells, caster, pick)
  {
    if !CanCast(f, spells[pick], caster) && r != null {
      var k :| 0 <= k < |spells| && r == spells[k] && CanCast(f, r, caster)
               && forall j :: 0 <= j < k ==> !CanCast(f, spells[j], caster);
      var q := FirstCastable(f, spells, caster);
      var m :| 0 <= m < |spells| && q == spells[m] && CanCast(f, q, caster)
               && forall j :: 0 <= j < m ==> !CanCast(f, spells[j], caster);
      assert k == m;
    }
  }

  /** How far an enemy pass got: still going, ended by the end-of-battle
      check, or aborted by an exception. */
  datatype Run = Going | Stopped | Thrown

  /** The state, the random draws used so far and the run, part-way through
      an enemy pass. */
  datatype Pass = Pass(field: Field, calls: nat, run: Run)

  /** One enemy's turn in HandleEnemyTurn's action loop. An enemy that cannot
      act is skipped. One that can draws a spell index (an empty spell list
      makes the index throw), then draws a target if the party is not empty,
      and casts if it has both. The selection refresh that follows throws
      without an active unit; otherwise an empty party stops the pass. */
  function EnemyStep(f: Field, books: Spellbooks, enemy: Unit, players: seq<Unit>,
                     draw: nat -> nat, calls: nat, hasActive: bool): Pass
  {
    if !FighterOf(f, enemy).canAct then Pass(f, calls, Going)
    else
      var spells := SpellsOf(books, enemy);
      if spells == [] then Pass(f, calls + 1, Thrown)
      else
        var spell := Choose(f, spells, enemy, RangeAt(draw, calls, 0, |spells|));
        var target := if players == [] then null else ChooseRandomTarget(players, RangeAt(draw, calls + 1, 0, |players|));
        var f' := if spell != null && target != null then CastOn(f, books, spell, enemy, target) else f;
        Pass(f', if players == [] then calls + 1 else calls + 2,
             if !hasActive then Thrown else if players == [] then Stopped else Going)
  }

  /** HandleEnemyTurn's action loop over `enemies`, in list order, up to the
      first step that does not keep going. */
  function EnemyPass(f: Field, books: Spellbooks, enemies: seq<Unit>, players: seq<Unit>,
                     draw: nat -> nat, calls: nat, hasActive: bool): Pass
    decreases |enemies|
  {
    if enemies == [] then Pass(f, calls, Going)
    else
      var before := EnemyPass(f, books, enemies[..|enemies| - 1], players, draw, calls, hasActive);
      if before.run != Going then before
      else EnemyStep(before.field, books, enemies[|enemies| - 1], players, draw, before.calls, hasActive)
  }

  /** A pass that has stopped stays stopped: the later enemies do nothing. */
  lemma {:induction false} EnemyPassHalts(f: Field, books: Spellbooks, enemies: seq<Unit>, players: seq<Unit>,
                                          draw: nat -> nat, calls: nat, hasActive: bool, i: nat)
    requires i <= |enemies|
    requires EnemyPass(f, books, enemies[..i], players, draw, calls, hasActive).run != Going
    ensures EnemyPass(f, books, enemies, players, draw, calls, hasActive)
            == EnemyPass(f, books, enemies[..i], players, draw, calls, hasActive)
    decreases |enemies| - i
  {
    if i < |enemies| {
      var j := |enemies| - 1;
      assert enemies[..j][..i] == enemies[..i];
      EnemyPassHalts(f, books, enemies[..j], players, draw, calls, hasActive, i);
    } else {
      assert enemies[..i] == enemies;
    }
  }

  /** When no enemy can act, the pass changes nothing and draws nothing. */
  lemma {:induction false} IdleEnemiesPass(f: Field, books: Spellbooks, enemies: seq<Unit>, players: seq<Unit>,
                                           draw: nat -> nat, calls: nat, hasActive: bool)
    requires forall e :: e in enemies ==> !FighterOf(f, e).canAct
    ensures EnemyPass(f, books, enemies, players, draw, calls, hasActive) == Pass(f, calls, Going)
    decreases |enemies|
  {
    if enemies != [] {
      var j := |enemies| - 1;
      assert forall e :: e in enemies[..j] ==> e in enemies;
      IdleEnemiesPass(f, books, enemies[..j], players, draw, calls, hasActive);
    }
  }

  /** With an empty party the first enemy that can act ends the pass, having
      changed nothing; its spell index is the only draw it makes. */
  lemma EmptyPartyStops(f: Field, books: Spellbooks, enemies: seq<Unit>,
                        draw: nat -> nat, calls: nat, i: nat)
    requires i < |enemies| && FighterOf(f, enemies[i]).canAct && SpellsOf(books, enemies[i]) != []
    requires forall j :: 0 <= j < i ==> !FighterOf(f, enemies[j]).canAct
    ensures EnemyPass(f, books, enemies, [], draw, calls, true) == Pass(f, calls + 1, Stopped)
  {
    assert forall e :: e in enemies[..i] ==> !FighterOf(f, e).canAct;
    IdleEnemiesPass(f, books, enemies[..i], [], draw, calls, true);
    assert enemies[..i + 1][..i] == enemies[..i];
    EnemyPassHalts(f, books, enemies, [], draw, calls, true, i + 1);
  }

  /** The enemy pass from the refreshed state `f`, followed, when it runs
      to the end, by the party's refresh that starts the player's turn. */
  function EnemyPhaseOf(f: Field, books: Spellbooks, enemies: seq<Unit>, players: seq<Unit>,
                        draw: nat -> nat, calls: nat, hasActive: bool, next: Unit -> TurnRefresh): Pass
  {
    var pass := EnemyPass(f, books, enemies, players, draw, calls, hasActive);
    if pass.run == Going then pass.(field := RefreshAll(pass.field, books, players, next)) else pass
  }

  /** The enemies' whole turn from the state `f`: every enemy's refresh, then
      the enemy phase. */
  function EnemyTurnOf(f: Field, books: Spellbooks, enemies: seq<Unit>, players: seq<Unit>,
                       draw: nat -> nat, calls: nat, hasActive: bool, next: Unit -> TurnRefresh): Pass
  {
    EnemyPhaseOf(RefreshAll(f, books, enemies, next), books, enemies, players, draw, calls, hasActive, next)
  }

  /** Where an enemy phase leaves the turn state, the turn counter (from
      `turnBefore`) and the thrown flag: a pass that stopped or threw leaves
      the turn ENEMYPROCESSING and the counter as it was; a pass that ran to
      the end starts the player's turn, which throws without an active unit
      and otherwise moves the counter on and leaves the turn to the player
      exactly when some party member can act in the phase's final state,
      after the party's refresh. */
  predicate PhaseLeaves(phase: Pass, players: seq<Unit>, thrown: bool, state: TurnState, turn: int, turnBefore: int,
                        hasActive: bool) {
    (phase.run != Going ==> state == ENEMYPROCESSING && turn == turnBefore && (thrown <==> phase.run == Thrown))
    && (phase.run == Going ==>
          (thrown <==> !hasActive)
          && (thrown ==> state == PLAYER && turn == turnBefore)
          && (!thrown ==> turn == turnBefore + 1 && (state == PLAYER || state == ENEMY))
          && (!thrown ==> (state == PLAYER <==> exists i :: 0 <= i < |players| && FighterOf(phase.field, players[i]).canAct)))
  }

  /** The HP bounds of a unit: 0 <= hp <= maxHP. */
  predicate HPValid(f: Field, u: Unit) {
    0 <= FighterOf(f, u).hp <= u.maxHP
  }

  /** An enemy pass only ever hurts the party: no unit outside the party
      changes HP, a party member's HP within bounds never rises, and HP
      within bounds stays within bounds. */
  lemma {:induction false} EnemyPassOnlyHurtsParty(f: Field, books: Spellbooks, enemies: seq<Unit>,
                                                   players: seq<Unit>, draw: nat -> nat, calls: nat, hasActive: bool)
    ensures var r := EnemyPass(f, books, enemies, players, draw, calls, hasActive);
            (forall u :: u !in players ==> FighterOf(r.field, u).hp == FighterOf(f, u).hp)
            && (forall u :: HPValid(f, u) ==> FighterOf(r.field, u).hp <= FighterOf(f, u).hp)
            && (forall u :: HPValid(f, u) ==> HPValid(r.field, u))
            && r.calls >= calls
    decreases |enemies|
  {
    if enemies != [] {
      var j := |enemies| - 1;
      EnemyPassOnlyHurtsParty(f, books, enemies[..j], players, draw, calls, hasActive);
      var before := EnemyPass(f, books, enemies[..j], players, draw, calls, hasActive);
      if before.run == Going {
        StepOnlyHurtsParty(before.field, books, enemies[j], players, draw, before.calls, hasActive);
      }
    }
  }

  lemma StepOnlyHurtsParty(f: Field, books: Spellbooks, enemy: Unit, players: seq<Unit>,
                           draw: nat -> nat, calls: nat, hasActive: bool)
    ensures var r := EnemyStep(f, books, enemy, players, draw, calls, hasActive);
            (forall u :: u !in players ==> FighterOf(r.field, u).hp == FighterOf(f, u).hp)
            && (forall u :: HPValid(f, u) ==> FighterOf(r.field, u).hp <= FighterOf(f, u).hp)
            && (forall u :: HPValid(f, u) ==> HPValid(r.field, u))
            && r.calls >= calls
  {
    var spells := SpellsOf(books, enemy);
    if FighterOf(f, enemy).canAct && spells != [] && players != [] {
      var spell := Choose(f, spells, enemy, RangeAt(draw, calls, 0, |spells|));
      var target := players[RangeAt(draw, calls + 1, 0, |players|)];
      if spell != null {
        CastOnEffect(f, books, spell, enemy, target);
        assert spell.HitDamage(enemy, target) >= 0;
      }
    }
  }

  /** Unit.ProcessNextTurn on the battle state. */
  function Refreshed(f: Field, books: Spellbooks, u: Unit, next: TurnRefresh): Field {
    var renewed := set s | s in SpellsOf(books, u) && s in next.cooldowns;
    Field(f.fighters[u := next.fighter],
          map s | s in f.cooldowns.Keys + renewed :: if s in renewed then next.cooldowns[s] else f.cooldowns[s])
  }

  /** What one refresh changes: the unit's fighter state, and the cooldowns
      of those of its spells the refresh has an entry for. */
  lemma RefreshedEffect(f: Field, books: Spellbooks, u: Unit, next: TurnRefresh)
    ensures var r := Refreshed(f, books, u, next);
            FighterOf(r, u) == next.fighter
            && (forall v :: v != u ==> FighterOf(r, v) == FighterOf(f, v))
            && (forall s :: CooldownOf(r, s)
                            == if s in SpellsOf(books, u) && s in next.cooldowns then next.cooldowns[s]
                               else CooldownOf(f, s))
  {
  }

  /** The ProcessNextTurn loop over `units`, in list order. */
  function RefreshAll(f: Field, books: Spellbooks, units: seq<Unit>, next: Unit -> TurnRefresh): Field
    decreases |units|
  {
    if units == [] then f
    else Refreshed(RefreshAll(f, books, units[..|units| - 1], next), books, units[|units| - 1], next(units[|units| - 1]))
  }

  /** After the loop every listed unit has the fighter state its refresh
      gave, every other unit keeps its own, and a spell none of the listed
      units has keeps its cooldown. */
  lemma {:induction false} RefreshAllEffect(f: Field, books: Spellbooks, units: seq<Unit>, next: Unit -> TurnRefresh)
    ensures var r := RefreshAll(f, books, units, next);
            (forall u :: u in units ==> FighterOf(r, u) == next(u).fighter)
            && (forall u :: u !in units ==> FighterOf(r, u) == FighterOf(f, u))
            && (forall s :: (forall u :: u in units ==> s !in SpellsOf(books, u)) ==>
                  CooldownOf(r, s) == CooldownOf(f, s))
    decreases |units|
  {
    if units != [] {
      var j := |units| - 1;
      RefreshAllEffect(f, books, units[..j], next);
      assert forall u :: u in units <==> u in units[..j] || u == units[j];
    }
  }

  /** ChooseSpellForEnemy, given the random index `pick` it draws: the picked
      spell if castable, else the first castable one, else null. On an empty
      spell list Random.Range(0, 0) answers 0 and the index throws. */
  method ChooseSpellForEnemy(enemy: Unit, pick: nat) returns (r: Spell?, thrown: bool)
    requires |enemy.AvailableSpells| > 0 ==> pick < |enemy.AvailableSpells|
    ensures thrown <==> enemy.AvailableSpells == []
    ensures r != null ==> !thrown && r in enemy.AvailableSpells && Castable(r, enemy)
    ensures !thrown && Castable(enemy.AvailableSpells[pick], enemy) ==> r == enemy.AvailableSpells[pick]
    ensures !thrown && !Castable(enemy.AvailableSpells[pick], enemy) ==>
              (r == null <==> forall s :: s in enemy.AvailableSpells ==> !Castable(s, enemy))
              && (r != null ==> exists k :: 0 <= k < |enemy.AvailableSpells| && r == enemy.AvailableSpells[k]
                                 && forall j :: 0 <= j < k ==> !Castable(enemy.AvailableSpells[j], enemy))
  {
    var availableSpells := enemy.AvailableSpells;
    if |availableSpells| == 0 {
      return null, true;
    }
    thrown := false;
    var randomSpell := availableSpells[pick];
    if randomSpell.IsReady() && enemy.CanAffordCast(randomSpell.MPCost) {
      return randomSpell, false;
    }
    var i := 0;
    while i < |availableSpells|
      invariant 0 <= i <= |availableSpells|
      invariant forall j :: 0 <= j < i ==> !Castable(availableSpells[j], enemy)
    {
      var spell := availableSpells[i];
      if spell.IsReady() && enemy.CanAffordCast(spell.MPCost) {
        return spell, false;
      }
      i := i + 1;
    }
    return null, false;
  }

  /** ChooseRandomTarget, given the random index `pick` it draws. */
  function ChooseRandomTarget(targets: seq<Unit>, pick: nat): (r: Unit?)
    requires |targets| > 0 ==> pick < |targets|
    ensures r == null <==> |targets| == 0
    ensures r != null ==> r in targets
  {
    if |targets| == 0 then null else targets[pick]
  }

  class CombatManager {
    var turnState: TurnState
    var playerUnits: seq<Unit>
    var enemyUnits: seq<Unit>
    /** Does the action. */
    var activePlayerUnit: Unit?
    /** Receives the action. */
    var targetUnit: Unit?
    /** The spell to execute. */
    var selectedSpell: Spell?
    var turnNumber: int

    constructor ()
      ensures turnState == INIT && playerUnits == [] && enemyUnits == []
      ensures activePlayerUnit == null && targetUnit == null && selectedSpell == null
      ensures turnNumber == 1
    {
      turnState := INIT;
      playerUnits, enemyUnits := [], [];
      activePlayerUnit, targetUnit, selectedSpell := null, null, null;
      turnNumber := 1;
    }

    /** The units of the battle. */
    ghost function Units(): set<Unit>
      reads this`playerUnits, this`enemyUnits
    {
      set u | u in playerUnits + enemyUnits
    }

    /** The spells of the battle's units. */
    ghost function Spells(): set<Spell>
      reads this`playerUnits, this`enemyUnits, Units()`AvailableSpells
    {
      set u, s | u in Units() && s in u.AvailableSpells :: s
    }

    /** The battle's changing state, as a value. */
    ghost function FieldNow(): Field
      reads this`playerUnits, this`enemyUnits, Units()`AvailableSpells
      reads Units()`currHP, Units()`currMP, Units()`canAct, Spells()`remainingCooldown
    {
      Field(map u | u in Units() :: Fighter(u.currHP, u.currMP, u.canAct),
            map s | s in Spells() :: s.remainingCooldown)
    }

    /** The spell lists of the battle's units, as a value. */
    ghost function Books(): Spellbooks
      reads this`playerUnits, this`enemyUnits, Units()`AvailableSpells
    {
      map u | u in Units() :: u.AvailableSpells
    }


    /** The snapshots agree with the heap they are taken from. */
    lemma Snapshot()
      ensures Agrees(FieldNow(), Units(), Spells()) && Describes(Books(), Units())
      ensures forall u, s :: u in Units() && s in SpellsOf(Books(), u) ==> s in Spells()
    {
    }

    /** Some player unit can still act this turn. */
    ghost predicate PartyCanAct()
      reads this`playerUnits, playerUnits
    {
      exists i :: 0 <= i < |playerUnits| && playerUnits[i].canAct
    }

    /** CheckTurnProgress: the player keeps the turn while any party member can
        act, otherwise it passes to the enemies. */
    method CheckTurnProgress() returns (r: TurnState)
      ensures r == PLAYER || r == ENEMY
      ensures r == PLAYER <==> PartyCanAct()
    {
      var i := 0;
      while i < |playerUnits|
        invariant 0 <= i <= |playerUnits|
        invariant forall j :: 0 <= j < i ==> !playerUnits[j].canAct
      {
        if playerUnits[i].canAct {
          return PLAYER;
        }
        i := i + 1;
      }
      return ENEMY;
    }

    /** The turn part of RefreshUnitSelections. The source reads
        activePlayerUnit.canAct before it looks at the turn, so without an
        active unit it throws and changes nothing; otherwise, only in the
        player's turn, the state is recomputed. */
    method RefreshUnitSelections() returns (thrown: bool)
      modifies this`turnState
      ensures thrown <==> activePlayerUnit == null
      ensures thrown || old(turnState) != PLAYER ==> turnState == old(turnState)
      ensures !thrown && old(turnState) == PLAYER ==>
                (turnState == PLAYER || turnState == ENEMY) && (turnState == PLAYER <==> PartyCanAct())
    {
      if activePlayerUnit == null {
        return true;
      }
      thrown := false;
      if turnState == PLAYER {
        turnState := CheckTurnProgress();
      }
    }

    /** Start, after the units have been spawned: the player's turn begins
        with the first party member active, if there is one, and the turn
        state is then recomputed; that throws if no unit is active. */
    method Start(players: seq<Unit>, enemies: seq<Unit>) returns (thrown: bool)
      modifies this`turnState, this`playerUnits, this`enemyUnits, this`activePlayerUnit
      ensures playerUnits == players && enemyUnits == enemies
      ensures activePlayerUnit == if players != [] then players[0] else old(activePlayerUnit)
      ensures thrown <==> activePlayerUnit == null
      ensures thrown ==> turnState == PLAYER
      ensures !thrown ==> (turnState == PLAYER || turnState == ENEMY) && (turnState == PLAYER <==> PartyCanAct())
    {
      turnState := INIT;
      playerUnits := players;
      enemyUnits := enemies;
      turnState := PLAYER;
      if |playerUnits| > 0 {
        activePlayerUnit := playerUnits[0];
      }
      thrown := RefreshUnitSelections();
    }

    /** SelectSpell: the clicked spell becomes the selected one; the source
        then reads activePlayerUnit.canAct, which throws without an active
        unit. */
    method SelectSpell(spell: Spell) returns (thrown: bool)
      modifies this`selectedSpell
      ensures selectedSpell == spell
      ensures thrown <==> activePlayerUnit == null
    {
      selectedSpell := spell;
      thrown := activePlayerUnit == null;
    }

    /** The manager's CastSpell: only in the player's turn, with an active
        unit that can still act and a target, does the spell execute. The
        three-argument Execute it calls is not part of this model; it is taken
        to be AttackSpell.Execute, which does not check affordability. */
    method CastSpell(spell: Spell)
      modifies spell`remainingCooldown, {activePlayerUnit}`currMP, {activePlayerUnit}`canAct
      modifies {targetUnit}`currHP, {targetUnit}`canAct
      ensures var cast := old(turnState) == PLAYER && activePlayerUnit != null
                          && old(activePlayerUnit.canAct) && targetUnit != null;
              (cast ==> Executed(spell, activePlayerUnit, targetUnit))
              && (!cast && activePlayerUnit != null && targetUnit != null ==>
                    Untouched(spell, activePlayerUnit, targetUnit))
    {
      if turnState != PLAYER || activePlayerUnit == null || !activePlayerUnit.canAct || targetUnit == null {
        return;
      }
      spell.Execute(activePlayerUnit, targetUnit);
    }

    /** SelectUnit, the click on a unit. Without an active unit or a selected
        spell the click only picks a new active unit (a player unit). With
        both, a unit the spell accepts becomes the target: the cast is
        attempted and the selection cleared. Any other click on a player unit
        makes it active. The target is always cleared, and in the player's
        turn the turn state is recomputed from the units' flags after the
        click. A click on an enemy with no active unit throws in that
        recomputation. */
    method SelectUnit(unit: Unit) returns (thrown: bool)
      modifies this`targetUnit, this`activePlayerUnit, this`selectedSpell, this`turnState
      modifies {selectedSpell}`remainingCooldown, {activePlayerUnit}`currMP, {activePlayerUnit}`canAct
      modifies unit`currHP, unit`canAct
      ensures targetUnit == null
      ensures thrown <==> old(activePlayerUnit) == null && !unit.isPlayerUnit
      ensures thrown || old(turnState) != PLAYER ==> turnState == old(turnState)
      ensures !thrown && old(turnState) == PLAYER ==> (turnState == PLAYER <==> PartyCanAct())
      ensures !old(Picks(unit)) ==>
                selectedSpell == old(selectedSpell)
                && activePlayerUnit == (if unit.isPlayerUnit then unit else old(activePlayerUnit))
      ensures !old(Picks(unit)) && old(activePlayerUnit) != null && old(selectedSpell) != null ==>
                Untouched(old(selectedSpell), old(activePlayerUnit), unit)
      ensures old(Picks(unit)) ==>
                selectedSpell == null && activePlayerUnit == old(activePlayerUnit)
                && (old(turnState) == PLAYER && old(activePlayerUnit.canAct) ==>
                      Executed(old(selectedSpell), activePlayerUnit, unit))
                && (old(turnState) != PLAYER || !old(activePlayerUnit.canAct) ==>
                      Untouched(old(selectedSpell), activePlayerUnit, unit))
    {
      targetUnit := null;
      if activePlayerUnit == null || selectedSpell == null {
        thrown := SwitchActive(unit);
        return;
      }
      ChooseTarget(unit);
      if targetUnit != null {
        thrown := CastAtTarget();
        return;
      }
      thrown := SwitchActive(unit);
    }

    /** With an active unit and a selected spell, the click is on a unit the
        spell accepts as its target. */
    predicate Picks(unit: Unit)
      reads this`activePlayerUnit, this`selectedSpell
    {
      activePlayerUnit != null && selectedSpell != null
      && Accepts(selectedSpell.TargetingMode, unit, activePlayerUnit)
    }

    /** The if-else chain of SelectUnit that accepts or refuses the target. */
    method ChooseTarget(unit: Unit)
      requires selectedSpell != null && targetUnit == null
      modifies this`targetUnit
      ensures targetUnit == (if Accepts(selectedSpell.TargetingMode, unit, activePlayerUnit) then unit else null)
    {
      var mode := selectedSpell.TargetingMode;
      if mode == TargetingMode.Enemy && !unit.isPlayerUnit {
        targetUnit := unit;
      } else if mode == Ally && unit.isPlayerUnit {
        targetUnit := unit;
      } else if mode == Self && unit == activePlayerUnit {
        targetUnit := unit;
      }
    }

    /** The accepted-target branch of SelectUnit: cast, then clear the
        selection and the target. */
    method CastAtTarget() returns (thrown: bool)
      requires selectedSpell != null && activePlayerUnit != null && targetUnit != null
      modifies this`targetUnit, this`selectedSpell, this`turnState
      modifies {selectedSpell}`remainingCooldown, {activePlayerUnit}`currMP, {activePlayerUnit}`canAct
      modifies {targetUnit}`currHP, {targetUnit}`canAct
      ensures selectedSpell == null && targetUnit == null && !thrown
      ensures old(turnState) != PLAYER ==> turnState == old(turnState)
      ensures old(turnState) == PLAYER ==> (turnState == PLAYER <==> PartyCanAct())
      ensures old(turnState) == PLAYER && old(activePlayerUnit.canAct) ==>
                Executed(old(selectedSpell), activePlayerUnit, old(targetUnit))
      ensures old(turnState) != PLAYER || !old(activePlayerUnit.canAct) ==>
                Untouched(old(selectedSpell), activePlayerUnit, old(targetUnit))
    {
      CastSpell(selectedSpell);
      selectedSpell := null;
      targetUnit := null;
      thrown := RefreshUnitSelections();
    }

    /** A click that selects no target: a player unit becomes active. */
    method SwitchActive(unit: Unit) returns (thrown: bool)
      modifies this`activePlayerUnit, this`turnState
      ensures activePlayerUnit == (if unit.isPlayerUnit then unit else old(activePlayerUnit))
      ensures thrown <==> activePlayerUnit == null
      ensures thrown || old(turnState) != PLAYER ==> turnState == old(turnState)
      ensures !thrown && old(turnState) == PLAYER ==> (turnState == PLAYER <==> PartyCanAct())
    {
      if unit.isPlayerUnit {
        activePlayerUnit := unit;
      }
      thrown := RefreshUnitSelections();
    }

    /** RemoveUnit: the unit leaves the party if it is in it, and otherwise
        leaves the enemy list if it is there; the result is what
        CheckBattleEndConditions reports afterwards. */
    method RemoveUnit(unit: Unit) returns (outcome: BattleEnd)
      modifies this`playerUnits, this`enemyUnits
      ensures unit in old(playerUnits) ==>
                playerUnits == RemoveFirst(old(playerUnits), unit) && enemyUnits == old(enemyUnits)
      ensures unit !in old(playerUnits) ==>
                playerUnits == old(playerUnits) && enemyUnits == RemoveFirst(old(enemyUnits), unit)
      ensures outcome == BattleEndOf(|playerUnits|, |enemyUnits|)
    {
      if unit in playerUnits {
        playerUnits := RemoveFirst(playerUnits, unit);
      } else if unit in enemyUnits {
        enemyUnits := RemoveFirst(enemyUnits, unit);
      }
      outcome := BattleEndOf(|playerUnits|, |enemyUnits|);
    }


    // The steps below see the battle through a state `f` that describes its
    // units `U` and spells `S` (Agrees) and through books `B` that
    // describe the units (Describes). Since Agrees fixes every field a step
    // may change, a step's frame is the whole of `U` and `S`.

    /** One unit's ProcessNextTurn. */
    method RefreshStep(u: Unit, next: TurnRefresh, ghost f: Field, ghost B: Spellbooks,
                       ghost U: set<Unit>, ghost S: set<Spell>)
      requires u in U && (forall s :: s in SpellsOf(B, u) ==> s in S) && Describes(B, U) && Agrees(f, U, S)
      modifies u`canAct, u`currHP, u`currMP, S`remainingCooldown
      ensures Agrees(Refreshed(f, B, u, next), U, S)
    {
      assert SpellsOf(B, u) == u.AvailableSpells;
      u.ProcessNextTurn(next);
      RefreshedEffect(f, B, u, next);
    }

    /** The ProcessNextTurn loops of HandleEnemyTurn (over the enemies) and of
        StartPlayerTurn (over the party); `next` gives what each call
        leaves. */
    method RefreshUnits(units: seq<Unit>, next: Unit -> TurnRefresh, ghost f: Field, ghost B: Spellbooks,
                        ghost U: set<Unit>, ghost S: set<Spell>)
      requires (forall u :: u in units ==> u in U) && Describes(B, U) && Agrees(f, U, S)
      requires forall u, s :: u in units && s in SpellsOf(B, u) ==> s in S
      modifies U`canAct, U`currHP, U`currMP, S`remainingCooldown
      ensures Agrees(RefreshAll(f, B, units, next), U, S)
    {
      for i := 0 to |units|
        invariant Describes(B, U) && Agrees(RefreshAll(f, B, units[..i], next), U, S)
      {
        assert units[..i + 1][..i] == units[..i];
        RefreshStep(units[i], next(units[i]), RefreshAll(f, B, units[..i], next), B, U, S);
      }
      assert units[..|units|] == units;
    }

    /** StartPlayerTurn: every party member's ProcessNextTurn, then the
        player's turn begins and is recomputed at once (which throws without
        an active unit), and the turn counter moves on. After it the player
        keeps the turn exactly when some party member's refresh let it
        act. */
    method StartPlayerTurn(next: Unit -> TurnRefresh, ghost f: Field, ghost B: Spellbooks,
                           ghost U: set<Unit>, ghost S: set<Spell>) returns (thrown: bool)
      requires (forall u :: u in playerUnits ==> u in U) && Describes(B, U) && Agrees(f, U, S)
      requires forall u, s :: u in playerUnits && s in SpellsOf(B, u) ==> s in S
      modifies this`turnState, this`turnNumber, U`canAct, U`currHP, U`currMP, S`remainingCooldown
      ensures Agrees(RefreshAll(f, B, playerUnits, next), U, S)
      ensures thrown <==> activePlayerUnit == null
      ensures thrown ==> turnState == PLAYER && turnNumber == old(turnNumber)
      ensures !thrown ==> turnNumber == old(turnNumber) + 1 && (turnState == PLAYER || turnState == ENEMY)
      ensures !thrown ==> (turnState == PLAYER <==> exists i :: 0 <= i < |playerUnits| && next(playerUnits[i]).fighter.canAct)
    {
      RefreshUnits(playerUnits, next, f, B, U, S);
      RefreshAllEffect(f, B, playerUnits, next);
      assert forall u :: u in playerUnits ==> u.canAct == next(u).fighter.canAct;
      thrown := BeginPlayerTurn();
    }

    /** The end of StartPlayerTurn: the player's turn begins and is recomputed
        at once, and the counter moves on unless that throws. */
    method BeginPlayerTurn() returns (thrown: bool)
      modifies this`turnState, this`turnNumber
      ensures thrown <==> activePlayerUnit == null
      ensures thrown ==> turnState == PLAYER && turnNumber == old(turnNumber)
      ensures !thrown ==> turnNumber == old(turnNumber) + 1 && (turnState == PLAYER || turnState == ENEMY)
      ensures !thrown ==> (turnState == PLAYER <==> PartyCanAct())
    {
      turnState := PLAYER;
      thrown := RefreshUnitSelections();
      if thrown {
        return;
      }
      turnNumber := turnNumber + 1;
    }

    /** Spell.Execute between two units. */
    method CastStep(spell: Spell, caster: Unit, target: Unit, ghost f: Field, ghost B: Spellbooks,
                    ghost U: set<Unit>, ghost S: set<Spell>)
      requires caster in U && target in U && spell in S && Describes(B, U) && Agrees(f, U, S)
      modifies spell`remainingCooldown, caster`currMP, caster`canAct, target`currHP, target`canAct
      ensures Agrees(CastOn(f, B, spell, caster, target), U, S)
    {
      ghost var ready := spell.IsReady();
      spell.Execute(caster, target);
      ghost var r := CastOn(f, B, spell, caster, target);
      CastOnEffect(f, B, spell, caster, target);
      if !ready {
        assert r == f;
      } else {
        forall u | u in U
          ensures FighterOf(r, u) == Fighter(u.currHP, u.currMP, u.canAct)
        {
          if u != caster && u != target {
            assert FighterOf(r, u) == FighterOf(f, u);
          }
        }
        forall s | s in S
          ensures CooldownOf(r, s) == s.remainingCooldown
        {
          if s != spell {
            assert CooldownOf(r, s) == CooldownOf(f, s);
          }
        }
      }
    }

    /** One acting enemy's choice of spell and target, with its random draws
        from `rng`: a spell index first (which throws on an empty spell list),
        then a target index if the party is not empty. */
    method EnemyChoice(enemy: Unit, rng: RandomSource, ghost f: Field, ghost B: Spellbooks,
                       ghost U: set<Unit>, ghost S: set<Spell>) returns (chosenSpell: Spell?, target: Unit?, thrown: bool)
      requires enemy in U && (forall s :: s in SpellsOf(B, enemy) ==> s in S) && Describes(B, U) && Agrees(f, U, S)
      modifies rng`Calls
      ensures var spells := SpellsOf(B, enemy);
              (thrown <==> spells == [])
              && (thrown ==> rng.Calls == old(rng.Calls) + 1)
              && (!thrown ==>
                    chosenSpell == Choose(f, spells, enemy, RangeAt(rng.Draw, old(rng.Calls), 0, |spells|))
                    && (playerUnits == [] ==> target == null && rng.Calls == old(rng.Calls) + 1)
                    && (playerUnits != [] ==>
                          target == ChooseRandomTarget(playerUnits, RangeAt(rng.Draw, old(rng.Calls) + 1, 0, |playerUnits|))
                          && rng.Calls == old(rng.Calls) + 2))
    {
      var spells := enemy.AvailableSpells;
      assert forall s :: s in spells ==> (Castable(s, enemy) <==> CanCast(f, s, enemy));
      var pick := rng.Range(0, |spells|);
      chosenSpell, thrown := ChooseSpellForEnemy(enemy, pick);
      target := null;
      if thrown {
        return;
      }
      ChoiceIs(f, spells, enemy, pick, chosenSpell);
      if |playerUnits| > 0 {
        var targetPick := rng.Range(0, |playerUnits|);
        target := ChooseRandomTarget(playerUnits, targetPick);
      }
    }

    /** One acting enemy's action: its choice, and the cast when it has both
        a spell and a target. */
    method EnemyAction(enemy: Unit, rng: RandomSource, ghost f: Field, ghost B: Spellbooks,
                       ghost U: set<Unit>, ghost S: set<Spell>) returns (chosenSpell: Spell?, target: Unit?, thrown: bool)
      requires enemy.canAct && enemy in U && (forall p :: p in playerUnits ==> p in U)
      requires (forall s :: s in SpellsOf(B, enemy) ==> s in S) && Describes(B, U) && Agrees(f, U, S)
      modifies rng`Calls, U`canAct, U`currHP, U`currMP, S`remainingCooldown
      ensures var step := EnemyStep(f, B, enemy, playerUnits, rng.Draw, old(rng.Calls), true);
              Agrees(step.field, U, S) && rng.Calls == step.calls && (thrown <==> step.run == Thrown)
    {
      chosenSpell, target, thrown := EnemyChoice(enemy, rng, f, B, U, S);
      if !thrown && chosenSpell != null && target != null {
        CastStep(chosenSpell, enemy, target, f, B, U, S);
      }
    }

    /** One pass of HandleEnemyTurn's foreach loop: an enemy that cannot act
        is skipped; one that can takes its action, after which the selection
        refresh runs and the pass stops if the party is empty (the enemy list,
        being iterated, is not). */
    method EnemyTurnStep(enemy: Unit, rng: RandomSource, ghost f: Field, ghost B: Spellbooks,
                         ghost U: set<Unit>, ghost S: set<Spell>) returns (run: Run)
      requires enemy in enemyUnits && turnState == ENEMYPROCESSING
      requires enemy in U && (forall p :: p in playerUnits ==> p in U)
      requires (forall s :: s in SpellsOf(B, enemy) ==> s in S) && Describes(B, U) && Agrees(f, U, S)
      modifies this`turnState, rng`Calls, U`canAct, U`currHP, U`currMP, S`remainingCooldown
      ensures var step := EnemyStep(f, B, enemy, playerUnits, rng.Draw, old(rng.Calls), activePlayerUnit != null);
              Agrees(step.field, U, S) && rng.Calls == step.calls && run == step.run
      ensures turnState == ENEMYPROCESSING && Describes(B, U)
    {
      if !enemy.canAct {
        return Going;
      }
      var chosenSpell, target, thrown := EnemyAction(enemy, rng, f, B, U, S);
      if thrown {
        return Thrown;
      }
      thrown := RefreshUnitSelections();
      if thrown {
        return Thrown;
      }
      run := if |playerUnits| == 0 || |enemyUnits| == 0 then Stopped else Going;
    }

    /** HandleEnemyTurn's action loop and the start of the player's turn,
        from the state `f` the enemies' refresh left. */
    method EnemyPhase(rng: RandomSource, next: Unit -> TurnRefresh, ghost f: Field, ghost B: Spellbooks,
                      ghost U: set<Unit>, ghost S: set<Spell>) returns (thrown: bool)
      requires turnState == ENEMYPROCESSING && Describes(B, U) && Agrees(f, U, S)
      requires forall u :: u in playerUnits + enemyUnits ==> u in U
      requires forall u, s :: u in playerUnits + enemyUnits && s in SpellsOf(B, u) ==> s in S
      modifies this`turnState, this`turnNumber, rng`Calls, U`canAct, U`currHP, U`currMP, S`remainingCooldown
      ensures var phase := EnemyPhaseOf(f, B, enemyUnits, playerUnits, rng.Draw, old(rng.Calls), activePlayerUnit != null, next);
              Agrees(phase.field, U, S) && rng.Calls == phase.calls
              && PhaseLeaves(phase, playerUnits, thrown, turnState, turnNumber, old(turnNumber), activePlayerUnit != null)
    {
      ghost var pass := EnemyPass(f, B, enemyUnits, playerUnits, rng.Draw, rng.Calls, activePlayerUnit != null);
      var run := EnemyLoop(rng, f, B, U, S);
      if run != Going {
        return run == Thrown;
      }
      thrown := StartPlayerTurn(next, pass.field, B, U, S);
      RefreshAllEffect(pass.field, B, playerUnits, next);
    }

    /** HandleEnemyTurn's action loop: the enemies in list order, up to the
        first step that does not keep going. */
    method EnemyLoop(rng: RandomSource, ghost f: Field, ghost B: Spellbooks,
                     ghost U: set<Unit>, ghost S: set<Spell>) returns (run: Run)
      requires turnState == ENEMYPROCESSING && Describes(B, U) && Agrees(f, U, S)
      requires forall u :: u in playerUnits + enemyUnits ==> u in U
      requires forall u, s :: u in enemyUnits && s in SpellsOf(B, u) ==> s in S
      modifies this`turnState, rng`Calls, U`canAct, U`currHP, U`currMP, S`remainingCooldown
      ensures var pass := EnemyPass(f, B, enemyUnits, playerUnits, rng.Draw, old(rng.Calls), activePlayerUnit != null);
              Agrees(pass.field, U, S) && rng.Calls == pass.calls && run == pass.run
      ensures turnState == ENEMYPROCESSING
    {
      ghost var calls := rng.Calls;
      ghost var hasActive := activePlayerUnit != null;
      ghost var p := Pass(f, calls, Going);
      var i := 0;
      run := Going;
      while i < |enemyUnits| && run == Going
        invariant 0 <= i <= |enemyUnits|
        invariant turnState == ENEMYPROCESSING && Describes(B, U)
        invariant p == EnemyPass(f, B, enemyUnits[..i], playerUnits, rng.Draw, calls, hasActive)
        invariant p.run == run && Agrees(p.field, U, S) && rng.Calls == p.calls
      {
        assert enemyUnits[..i + 1][..i] == enemyUnits[..i];
        ghost var q := EnemyStep(p.field, B, enemyUnits[i], playerUnits, rng.Draw, p.calls, hasActive);
        assert q == EnemyPass(f, B, enemyUnits[..i + 1], playerUnits, rng.Draw, calls, hasActive);
        run := EnemyTurnStep(enemyUnits[i], rng, p.field, B, U, S);
        p := q;
        i := i + 1;
      }
      if run != Going {
        EnemyPassHalts(f, B, enemyUnits, playerUnits, rng.Draw, calls, hasActive, i);
      } else {
        assert enemyUnits[..i] == enemyUnits;
      }
    }

    /** HandleEnemyTurn, run to completion without its pauses. Only in the
        enemies' turn does anything happen: the state moves to
        ENEMYPROCESSING, every enemy's ProcessNextTurn runs, and then the
        enemies act in list order as EnemyPass describes, from the refreshed
        state. A pass that stops or throws leaves the state ENEMYPROCESSING;
        one that completes starts the player's turn. */
    method HandleEnemyTurn(rng: RandomSource, next: Unit -> TurnRefresh) returns (thrown: bool)
      modifies this`turnState, this`turnNumber, rng`Calls
      modifies Units()`canAct, Units()`currHP, Units()`currMP, Spells()`remainingCooldown
      ensures old(turnState) != ENEMY ==>
                !thrown && turnState == old(turnState) && turnNumber == old(turnNumber) && rng.Calls == old(rng.Calls)
                && Agrees(old(FieldNow()), old(Units()), old(Spells()))
      ensures old(turnState) == ENEMY ==>
                var turn := EnemyTurnOf(old(FieldNow()), old(Books()), enemyUnits, playerUnits,
                                        rng.Draw, old(rng.Calls), activePlayerUnit != null, next);
                Agrees(turn.field, old(Units()), old(Spells())) && rng.Calls == turn.calls
                && PhaseLeaves(turn, playerUnits, thrown, turnState, turnNumber, old(turnNumber), activePlayerUnit != null)
    {
      Snapshot();
      if turnState != ENEMY {
        return false;
      }
      turnState := ENEMYPROCESSING;
      thrown := EnemyTurn(rng, next, old(FieldNow()), old(Books()), old(Units()), old(Spells()));
    }

    /** The enemies' turn after the state has moved to ENEMYPROCESSING, from
        the state `f`. */
    method EnemyTurn(rng: RandomSource, next: Unit -> TurnRefresh, ghost f: Field, ghost B: Spellbooks,
                     ghost U: set<Unit>, ghost S: set<Spell>) returns (thrown: bool)
      requires turnState == ENEMYPROCESSING && Describes(B, U) && Agrees(f, U, S)
      requires forall u :: u in playerUnits + enemyUnits ==> u in U
      requires forall u, s :: u in playerUnits + enemyUnits && s in SpellsOf(B, u) ==> s in S
      modifies this`turnState, this`turnNumber, rng`Calls, U`canAct, U`currHP, U`currMP, S`remainingCooldown
      ensures var turn := EnemyTurnOf(f, B, enemyUnits, playerUnits, rng.Draw, old(rng.Calls), activePlayerUnit != null, next);
              Agrees(turn.field, U, S) && rng.Calls == turn.calls
              && PhaseLeaves(turn, playerUnits, thrown, turnState, turnNumber, old(turnNumber), activePlayerUnit != null)
    {
      RefreshUnits(enemyUnits, next, f, B, U, S);
      assert rng.Calls == old(rng.Calls) && turnNumber == old(turnNumber);
      thrown := EnemyPhase(rng, next, RefreshAll(f, B, enemyUnits, next), B, U, S);
    }
  }
}
