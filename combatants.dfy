/** Assets/Spell.cs and Assets/Unit.cs: a spell with its cooldown counter and
    the attack-damage formula, and a combat unit with clamped HP and MP. The
    two classes refer to each other, so they share one module. */
module Combatants {
  import opened UnityMath
  import opened Wrappers

  datatype Element = None | Fire | Ice
  datatype TargetingMode = Self | Ally | Enemy | RandomEnemy | AllAllies | AllEnemies

  /** The part of a unit's state a battle changes: HP, MP and whether it can
      still act this turn. */
  datatype Fighter = Fighter(hp: int, mp: int, canAct: bool)

  /** The values one call of Unit.ProcessNextTurn leaves behind: the unit's
      new fighter state and new cooldowns for (some of) its spells. */
  datatype TurnRefresh = TurnRefresh(fighter: Fighter, cooldowns: map<Spell, int>)

  /** System.Enum.Parse over Element: the constant's own name, or failure (the
      source then throws). */
  function ParseElement(s: string): (r: Option<Element>)
    ensures r.Some? <==> s in {"None", "Fire", "Ice"}
    ensures r.Some? ==> ElementName(r.value) == s
  {
    if s == "None" then Some(Element.None)
    else if s == "Fire" then Some(Fire)
    else if s == "Ice" then Some(Ice)
    else Option.None
  }

  function ElementName(e: Element): string {
    match e
    case None => "None"
    case Fire => "Fire"
    case Ice => "Ice"
  }

  /** System.Enum.Parse over TargetingMode. */
  function ParseTargetingMode(s: string): (r: Option<TargetingMode>)
    ensures r.Some? <==> s in {"Self", "Ally", "Enemy", "RandomEnemy", "AllAllies", "AllEnemies"}
    ensures r.Some? ==> TargetingModeName(r.value) == s
  {
    if s == "Self" then Some(Self)
    else if s == "Ally" then Some(Ally)
    else if s == "Enemy" then Some(Enemy)
    else if s == "RandomEnemy" then Some(RandomEnemy)
    else if s == "AllAllies" then Some(AllAllies)
    else if s == "AllEnemies" then Some(AllEnemies)
    else Option.None
  }

  function TargetingModeName(m: TargetingMode): string {
    match m
    case Self => "Self"
    case Ally => "Ally"
    case Enemy => "Enemy"
    case RandomEnemy => "RandomEnemy"
    case AllAllies => "AllAllies"
    case AllEnemies => "AllEnemies"
  }

  /** Parsing a constant's name gives the constant back. */
  lemma ParseNames(e: Element, m: TargetingMode)
    ensures ParseElement(ElementName(e)) == Some(e)
    ensures ParseTargetingMode(TargetingModeName(m)) == Some(m)
  {
  }

  /** The damage of an attack: the spell's power plus the caster's attack,
      less the target's defence and resistance, and never below zero. */
  function Damage(power: int, attack: int, defense: int, resistance: int): (d: int)
    ensures d >= 0 && d >= power + attack - defense - resistance
    ensures d == 0 || d == power + attack - defense - resistance
  {
    Max(power + attack - defense - resistance, 0)
  }

  /** More attack never lowers the damage; more defence or resistance never
      raises it. */
  lemma DamageMonotone(power: int, attack: int, attack': int, defense: int, defense': int,
                       resistance: int, resistance': int)
    requires attack <= attack' && defense' <= defense && resistance' <= resistance
    ensures Damage(power, attack, defense, resistance) <= Damage(power, attack', defense', resistance')
  {
  }

  /** The cooldown counter after `k` calls of ReduceCooldown. */
  function CooldownAfter(remaining: int, k: nat): int
    decreases k
  {
    if k == 0 then remaining else CooldownAfter(Max(remaining - 1, 0), k - 1)
  }

  /** Each reduction takes one off, down to zero and no further. */
  lemma {:induction false} CooldownAfterCount(remaining: nat, k: nat)
    ensures CooldownAfter(remaining, k) == Max(remaining - k, 0)
    decreases k
  {
    if k > 0 {
      CooldownAfterCount(Max(remaining - 1, 0), k - 1);
    }
  }

  /** After StartCooldown, the spell stays on cooldown for Cooldown - 1
      reductions and is ready after exactly Cooldown of them. */
  lemma ReadyAfterCooldown(cooldown: nat, k: nat)
    ensures k < cooldown ==> CooldownAfter(cooldown, k) > 0
    ensures k >= cooldown ==> CooldownAfter(cooldown, k) == 0
  {
    CooldownAfterCount(cooldown, k);
  }

  /** Unit.CastSpell charges the cost, then Execute charges it again: from a
      valid MP value the net drop is twice the cost, floored at zero. */
  lemma ChargedTwice(mp: int, maxMP: int, cost: int)
    requires 0 <= mp <= maxMP && cost >= 0
    ensures Clamp(Clamp(mp - cost, 0, maxMP) - cost, 0, maxMP) == Max(mp - 2 * cost, 0)
  {
  }

  /** What AttackSpell.Execute does to the spell, the caster and the target:
      nothing unless the spell is ready; otherwise the caster pays the cost,
      the target takes the damage (and loses its action at zero HP), the
      cooldown restarts and the caster's action is spent. */
  twostate predicate Executed(spell: Spell, caster: Unit, target: Unit)
    reads spell, caster, target
  {
    if old(spell.IsReady()) then
      caster.currMP == Clamp(old(caster.currMP) - spell.MPCost, 0, caster.maxMP)
      && target.currHP == Clamp(old(target.currHP) - spell.HitDamage(caster, target), 0, target.maxHP)
      && spell.remainingCooldown == spell.Cooldown && !caster.canAct
      && (target != caster ==> target.canAct == (old(target.canAct) && target.currHP > 0))
    else
      Untouched(spell, caster, target)
  }

  /** The fields a cast may change have kept their values. */
  twostate predicate Untouched(spell: Spell, caster: Unit, target: Unit)
    reads spell, caster, target
  {
    spell.remainingCooldown == old(spell.remainingCooldown)
    && caster.currMP == old(caster.currMP) && caster.canAct == old(caster.canAct)
    && target.currHP == old(target.currHP) && target.canAct == old(target.canAct)
  }

  class Spell {
    const Name: string
    const Power: int
    const MPCost: int
    const Cooldown: int
    const TargetingMode: TargetingMode
    /** Spell.cs models every spell that reaches combat as an AttackSpell;
        the element is that subclass's field. */
    const Element: Element
    var remainingCooldown: int

    constructor (name: string, power: int, mpCost: int, cooldown: int,
                 targetingMode: TargetingMode, element: Element)
      ensures Name == name && Power == power && MPCost == mpCost && Cooldown == cooldown
      ensures TargetingMode == targetingMode && Element == element
      ensures remainingCooldown == 0 && IsReady()
    {
      Name := name;
      Power := power;
      MPCost := mpCost;
      Cooldown := cooldown;
      TargetingMode := targetingMode;
      Element := element;
      remainingCooldown := 0;
    }

    predicate IsReady()
      reads this`remainingCooldown
    {
      remainingCooldown == 0
    }

    predicate IsOnCooldown()
      reads this`remainingCooldown
    {
      remainingCooldown > 0
    }

    /** The cooldown counter is never negative. */
    ghost predicate CooldownValid()
      reads this`remainingCooldown
    {
      remainingCooldown >= 0
    }

    /** With a valid counter a spell is exactly one of ready and on cooldown;
        a negative counter (a negative Cooldown in the spell data) makes it
        neither. */
    lemma ReadyXorOnCooldown()
      ensures CooldownValid() ==> (IsReady() <==> !IsOnCooldown())
      ensures !CooldownValid() ==> !IsReady() && !IsOnCooldown()
    {
    }

    method StartCooldown()
      modifies this`remainingCooldown
      ensures remainingCooldown == Cooldown
      ensures Cooldown > 0 ==> IsOnCooldown()
      ensures Cooldown >= 0 ==> CooldownValid()
    {
      remainingCooldown := Cooldown;
    }

    method ReduceCooldown()
      modifies this`remainingCooldown
      ensures remainingCooldown == CooldownAfter(old(remainingCooldown), 1)
      ensures old(remainingCooldown) >= 0 ==> remainingCooldown == Max(old(remainingCooldown) - 1, 0)
      ensures CooldownValid()
    {
      remainingCooldown := Max(remainingCooldown - 1, 0);
    }

    /** The damage this spell deals from `caster` to `target`: physical attack
        and defence for an element-less spell, magical ones otherwise, and the
        target's resistance to the element. */
    function HitDamage(caster: Unit, target: Unit): int
    {
      Damage(Power, if Element.None? then caster.pAtk else caster.mAtk,
             if Element.None? then target.pDef else target.mDef, target.GetResistance(Element))
    }

    /** AttackSpell.Execute: only a ready spell acts. It charges the caster,
        damages the target, restarts the cooldown and ends the caster's
        action. It does not check that the caster can afford the spell. */
    method Execute(caster: Unit, target: Unit)
      modifies this`remainingCooldown, caster`currMP, caster`canAct, target`currHP, target`canAct
      ensures Executed(this, caster, target)
    {
      if !IsReady() {
        return;
      }
      caster.ChangeMPBy(MPCost * -1);
      var baseDamage := if Element.None? then caster.pAtk else caster.mAtk;
      var targetDefense := if Element.None? then target.pDef else target.mDef;
      var resistance := target.GetResistance(Element);
      var damage := Max(Power + baseDamage - targetDefense - resistance, 0);
      target.ApplyDamage(damage);
      StartCooldown();
      caster.canAct := false;
    }
  }

  class Unit {
    // No code of the game writes a unit's name, side, limits, statistics or
    // resistances after the unit is created, so they are constants here.
    const unitName: string
    const isPlayerUnit: bool
    const maxHP: int
    const maxMP: int
    const mpRegen: int
    const pAtk: int
    const pDef: int
    const mAtk: int
    const mDef: int
    const Resistances: map<Element, int>
    var canAct: bool
    var currHP: int
    var currMP: int
    var AvailableSpells: seq<Spell>

    /** The field initialisers of Unit.cs; which side a unit is on is set on
        its prefab. */
    constructor (name: string, isPlayer: bool)
      ensures unitName == name && canAct && isPlayerUnit == isPlayer
      ensures maxHP == 500 && currHP == 490 && maxMP == 500 && currMP == 490 && mpRegen == 25
      ensures pAtk == 40 && pDef == 20 && mAtk == 40 && mDef == 20
      ensures AvailableSpells == [] && Resistances == map[Fire := 0, Ice := 0]
    {
      unitName := name;
      isPlayerUnit := isPlayer;
      maxHP, maxMP, mpRegen := 500, 500, 25;
      pAtk, pDef, mAtk, mDef := 40, 20, 40, 20;
      Resistances := map[Fire := 0, Ice := 0];
      canAct := true;
      currHP, currMP := 490, 490;
      AvailableSpells := [];
    }

    /** HP and MP within their bounds. */
    ghost predicate Valid()
      reads this`currHP, this`currMP
    {
      0 <= currHP <= maxHP && 0 <= currMP <= maxMP
    }

    /** Unit.Initialize, without the presentation: the unit's spell list. */
    method Initialize(spells: seq<Spell>)
      modifies this`AvailableSpells
      ensures AvailableSpells == spells
    {
      AvailableSpells := spells;
    }

    method ChangeHPBy(value: int)
      modifies this`currHP
      ensures currHP == Clamp(old(currHP) + value, 0, maxHP)
      ensures maxHP >= 0 ==> 0 <= currHP <= maxHP
    {
      currHP := currHP + value;
      currHP := Clamp(currHP, 0, maxHP);
    }

    method ChangeMPBy(value: int)
      modifies this`currMP
      ensures currMP == Clamp(old(currMP) + value, 0, maxMP)
      ensures maxMP >= 0 ==> 0 <= currMP <= maxMP
    {
      currMP := currMP + value;
      currMP := Clamp(currMP, 0, maxMP);
    }

    /** The unit's resistance to `element`, zero for an element it has no
        entry for (Element.None in particular). */
    function GetResistance(element: Element): (r: int)
      ensures element in Resistances ==> r == Resistances[element]
      ensures element !in Resistances ==> r == 0
    {
      if element in Resistances then Resistances[element] else 0
    }

    predicate CanAffordCast(value: int)
      reads this`currMP
    {
      currMP >= value
    }

    /** Unit.ProcessNextTurn, whose body is not part of this model, as the
        step its call sites see: the unit's action flag, HP and MP, and the
        cooldowns of those of its spells `next` has an entry for, take the
        values `next` gives; nothing else changes. */
    method ProcessNextTurn(next: TurnRefresh)
      modifies this`canAct, this`currHP, this`currMP, (set s | s in AvailableSpells)`remainingCooldown
      ensures currHP == next.fighter.hp && currMP == next.fighter.mp && canAct == next.fighter.canAct
      ensures forall s :: s in AvailableSpells ==>
                s.remainingCooldown == if s in next.cooldowns then next.cooldowns[s] else old(s.remainingCooldown)
    {
      currHP, currMP, canAct := next.fighter.hp, next.fighter.mp, next.fighter.canAct;
      forall s | s in AvailableSpells && s in next.cooldowns {
        s.remainingCooldown := next.cooldowns[s];
      }
    }

    /** Takes damage; a unit whose HP reaches zero can no longer act. */
    method ApplyDamage(damage: int)
      modifies this`currHP, this`canAct
      ensures currHP == Clamp(old(currHP) - damage, 0, maxHP)
      ensures canAct == (old(canAct) && currHP > 0)
    {
      ChangeHPBy(-damage);
      if currHP <= 0 {
        canAct := false;
      }
    }

    /** Unit.CastSpell: refuses a spell on cooldown or one the unit cannot
        afford, otherwise charges the cost and lets the spell execute, which
        charges it a second time. */
    method CastSpell(spell: Spell, target: Unit)
      modifies this`currMP, this`canAct, spell`remainingCooldown, target`currHP, target`canAct
      ensures old(spell.IsOnCooldown()) || old(currMP) < spell.MPCost ==>
                currMP == old(currMP) && canAct == old(canAct)
                && spell.remainingCooldown == old(spell.remainingCooldown)
                && target.currHP == old(target.currHP) && target.canAct == old(target.canAct)
      ensures !old(spell.IsOnCooldown()) && old(currMP) >= spell.MPCost && !old(spell.IsReady()) ==>
                currMP == Clamp(old(currMP) - spell.MPCost, 0, maxMP) && canAct == old(canAct)
                && spell.remainingCooldown == old(spell.remainingCooldown)
                && target.currHP == old(target.currHP) && target.canAct == old(target.canAct)
      ensures old(spell.IsReady()) && old(currMP) >= spell.MPCost ==>
                currMP == Clamp(Clamp(old(currMP) - spell.MPCost, 0, maxMP) - spell.MPCost, 0, maxMP)
                && target.currHP == Clamp(old(target.currHP) - spell.HitDamage(this, target), 0, target.maxHP)
                && spell.remainingCooldown == spell.Cooldown && !canAct
                && (target != this ==> target.canAct == (old(target.canAct) && target.currHP > 0))
    {
      if spell.IsOnCooldown() {
        return;
      }
      if !CanAffordCast(spell.MPCost) {
        return;
      }
      ChangeMPBy(-spell.MPCost);
      spell.Execute(this, target);
    }
  }
}
