/** Assets/JsonObjects.cs: the serialisable records of a save file. UnitData
    carries the one piece of game logic in the file, the level-up loop run
    when the party rests; the map records are what the map generator writes
    and reads back. */
module JsonObjects {
  import opened Text

  /** A spell definition as read from JSON; every field is a string or int as
      in the file. */
  datatype SpellData = SpellData(name: string, power: int, mpCost: int, cooldown: int,
                                 targetingMode: string, element: string, graphicPath: string)

  /** One map node: position and the indices of its successors in the next
      floor. */
  datatype MapNodeData = MapNodeData(X: int, Y: int, NextNodeIndices: seq<int>)
  datatype FloorData = FloorData(Nodes: seq<MapNodeData>)
  datatype MapData = MapData(Floors: seq<FloorData>)

  /** The progression fields that ProcessRest reads and writes, as one value. */
  datatype Progress = Progress(MaxHP: int, MaxMP: int, SkillPoints: int,
                               PAtk: int, MAtk: int, PDef: int, MDef: int,
                               FireRes: int, IceRes: int,
                               Exp: int, ExpToNextLevel: int, SpellNames: seq<string>)

  /** A name of the Recharge family gains one more "I" per level until it ends
      in "III"; every other name stays. */
  function UpgradeName(name: string): string {
    if StartsWith(name, "Recharge") && !EndsWith(name, "III") then name + "I" else name
  }

  /** The for loop over SpellNames applied once. */
  function UpgradeNames(names: seq<string>): (r: seq<string>)
    ensures |r| == |names|
    ensures forall i :: 0 <= i < |names| ==> r[i] == UpgradeName(names[i])
  {
    seq(|names|, i requires 0 <= i < |names| => UpgradeName(names[i]))
  }

  /** One pass of the while loop's body. */
  function LevelUp(p: Progress): Progress {
    p.(MaxHP := p.MaxHP + 100, MaxMP := p.MaxMP + 20, SkillPoints := p.SkillPoints + 1,
       PAtk := p.PAtk + 10, MAtk := p.MAtk + 10, PDef := p.PDef + 5, MDef := p.MDef + 5,
       FireRes := p.FireRes + 10, IceRes := p.IceRes + 10,
       Exp := p.Exp - p.ExpToNextLevel, ExpToNextLevel := p.ExpToNextLevel * 2,
       SpellNames := UpgradeNames(p.SpellNames))
  }

  /** `k` passes of the loop body. */
  function LevelUps(p: Progress, k: nat): Progress
    decreases k
  {
    if k == 0 then p else LevelUps(LevelUp(p), k - 1)
  }

  /** The while loop of ProcessRest ends: the threshold is positive, or the
      experience is already below it and the loop does not run. */
  predicate RestEnds(p: Progress) {
    p.ExpToNextLevel > 0 || p.Exp < p.ExpToNextLevel
  }

  /** With a threshold that is not positive and experience that reaches it,
      the loop's condition still holds after any number of passes: the loop
      never ends. */
  lemma {:induction false} RestNeverEnds(p: Progress, k: nat)
    requires p.ExpToNextLevel <= 0 && p.Exp >= p.ExpToNextLevel
    ensures !RestEnds(p)
    ensures LevelUps(p, k).ExpToNextLevel <= 0 && LevelUps(p, k).Exp >= LevelUps(p, k).ExpToNextLevel
    decreases k
  {
    if k > 0 {
      RestNeverEnds(LevelUp(p), k - 1);
    }
  }

  /** The whole while loop: level up while the experience reaches the
      threshold. */
  function Rest(p: Progress): (r: Progress)
    requires RestEnds(p)
    ensures r.Exp < r.ExpToNextLevel
    ensures r.ExpToNextLevel >= p.ExpToNextLevel
    decreases if p.Exp < 0 then 0 else p.Exp
  {
    if p.Exp >= p.ExpToNextLevel then Rest(LevelUp(p)) else p
  }

  /** The number of levels a rest grants. */
  function RestLevels(p: Progress): nat
    requires RestEnds(p)
    decreases if p.Exp < 0 then 0 else p.Exp
  {
    if p.Exp >= p.ExpToNextLevel then 1 + RestLevels(LevelUp(p)) else 0
  }

  /** A rest is that many single levels, so LevelUpsGains describes its
      outcome. */
  lemma {:induction false} RestIsLevelUps(p: Progress)
    requires RestEnds(p)
    ensures Rest(p) == LevelUps(p, RestLevels(p))
    decreases if p.Exp < 0 then 0 else p.Exp
  {
    if p.Exp >= p.ExpToNextLevel {
      RestIsLevelUps(LevelUp(p));
    }
  }

  /** Experience exactly at the threshold gives one level: experience 0 and a
      doubled threshold. */
  lemma RestAtThreshold(p: Progress)
    requires p.ExpToNextLevel > 0 && p.Exp == p.ExpToNextLevel
    ensures Rest(p) == LevelUp(p)
    ensures Rest(p).Exp == 0 && Rest(p).ExpToNextLevel == 2 * p.ExpToNextLevel
    ensures Rest(p).SkillPoints == p.SkillPoints + 1
  {
  }

  /** A rest that reaches the threshold is one level followed by a rest. */
  lemma RestStep(p: Progress)
    requires p.ExpToNextLevel > 0 && p.Exp >= p.ExpToNextLevel
    ensures Rest(p) == Rest(LevelUp(p))
  {
  }

  /** Experience below the threshold changes nothing. */
  lemma RestBelowThreshold(p: Progress)
    requires p.Exp < p.ExpToNextLevel
    ensures Rest(p) == p
  {
  }

  /** Every level gives the same fixed amounts; after `k` levels the stats have
      grown by `k` times those amounts and the threshold by 2^k. */
  lemma {:induction false} LevelUpsGains(p: Progress, k: nat)
    ensures var r := LevelUps(p, k);
      r.MaxHP == p.MaxHP + 100 * k && r.MaxMP == p.MaxMP + 20 * k
      && r.SkillPoints == p.SkillPoints + k
      && r.PAtk == p.PAtk + 10 * k && r.MAtk == p.MAtk + 10 * k
      && r.PDef == p.PDef + 5 * k && r.MDef == p.MDef + 5 * k
      && r.FireRes == p.FireRes + 10 * k && r.IceRes == p.IceRes + 10 * k
      && r.ExpToNextLevel == p.ExpToNextLevel * Pow2(k)
      && |r.SpellNames| == |p.SpellNames|
    decreases k
  {
    if k > 0 {
      LevelUpsGains(LevelUp(p), k - 1);
    }
  }

  function Pow2(k: nat): (r: nat)
    ensures r >= 1
  {
    if k == 0 then 1 else 2 * Pow2(k - 1)
  }

  /** Names outside the Recharge family are never changed by a level. */
  lemma UpgradeKeepsOtherNames(name: string)
    requires !StartsWith(name, "Recharge")
    ensures UpgradeName(name) == name
  {
  }

  /** "Recharge" becomes "RechargeI", "RechargeII", "RechargeIII" over three
      levels and then stays. */
  lemma RechargeTiers()
    ensures UpgradeName("Recharge") == "RechargeI"
    ensures UpgradeName("RechargeI") == "RechargeII"
    ensures UpgradeName("RechargeII") == "RechargeIII"
    ensures UpgradeName("RechargeIII") == "RechargeIII"
  {
    assert StartsWith("Recharge", "Recharge");
    assert StartsWith("RechargeI", "Recharge") by { assert "RechargeI"[..8] == "Recharge"; }
    assert StartsWith("RechargeII", "Recharge") by { assert "RechargeII"[..8] == "Recharge"; }
    assert !EndsWith("RechargeI", "III");
    assert !EndsWith("RechargeII", "III") by { assert "RechargeII"[7..] == "eII"; }
    assert EndsWith("RechargeIII", "III") by { assert "RechargeIII"[8..] == "III"; }
  }

  /** The inner for loop of ProcessRest: rewrites each name in place. */
  method UpgradeSpellNames(spellNames: seq<string>) returns (names: seq<string>)
    ensures names == UpgradeNames(spellNames)
  {
    names := spellNames;
    var i := 0;
    while i < |names|
      invariant 0 <= i <= |names| == |spellNames|
      invariant forall k :: 0 <= k < i ==> names[k] == UpgradeName(spellNames[k])
      invariant forall k :: i <= k < |names| ==> names[k] == spellNames[k]
    {
      if StartsWith(names[i], "Recharge") && !EndsWith(names[i], "III") {
        names := names[i := names[i] + "I"];
      }
      i := i + 1;
    }
  }

  /** A party member's saved state (JsonObjects.cs:11-79). The float fields for
      colours and sprite geometry are not modelled. */
  class UnitData {
    var Name: string
    var IsPlayerUnit: bool
    var MaxHP: int
    var CurrHP: int
    var MaxMP: int
    var CurrMP: int
    var MPRegen: int
    var PAtk: int
    var PDef: int
    var MAtk: int
    var MDef: int
    var Exp: int
    var ExpToNextLevel: int
    var SkillPoints: int
    var ExpOnDeath: int
    var FireRes: int
    var IceRes: int
    var SpellNames: seq<string>

    constructor ()
      ensures SpellNames == []
    {
      SpellNames := [];
    }

    ghost function Snapshot(): Progress
      reads this
    {
      Progress(MaxHP, MaxMP, SkillPoints, PAtk, MAtk, PDef, MDef, FireRes, IceRes,
               Exp, ExpToNextLevel, SpellNames)
    }

    /** The fixed stat gains of one level. */
    method GainLevelStats()
      modifies this`MaxHP, this`MaxMP, this`SkillPoints, this`PAtk, this`MAtk, this`PDef, this`MDef
      modifies this`FireRes, this`IceRes
      ensures MaxHP == old(MaxHP) + 100 && MaxMP == old(MaxMP) + 20 && SkillPoints == old(SkillPoints) + 1
      ensures PAtk == old(PAtk) + 10 && MAtk == old(MAtk) + 10 && PDef == old(PDef) + 5 && MDef == old(MDef) + 5
      ensures FireRes == old(FireRes) + 10 && IceRes == old(IceRes) + 10
    {
      MaxHP := MaxHP + 100;
      MaxMP := MaxMP + 20;
      SkillPoints := SkillPoints + 1;
      PAtk := PAtk + 10;
      MAtk := MAtk + 10;
      PDef := PDef + 5;
      MDef := MDef + 5;
      FireRes := FireRes + 10;
      IceRes := IceRes + 10;
    }

    /** One pass of the while loop's body. */
    method LevelUpOnce()
      modifies this`MaxHP, this`MaxMP, this`SkillPoints, this`PAtk, this`MAtk, this`PDef, this`MDef
      modifies this`FireRes, this`IceRes, this`Exp, this`ExpToNextLevel, this`SpellNames
      ensures Snapshot() == LevelUp(old(Snapshot()))
    {
      GainLevelStats();
      Exp := Exp - ExpToNextLevel;
      ExpToNextLevel := ExpToNextLevel * 2;
      SpellNames := UpgradeSpellNames(SpellNames);
    }

    /** Levels up while the experience reaches the threshold, then refills HP
        and MP. A threshold that is not positive, with experience that reaches
        it, makes the loop run forever (RestNeverEnds); that is the only case
        excluded. */
    method ProcessRest()
      requires ExpToNextLevel > 0 || Exp < ExpToNextLevel
      modifies this`MaxHP, this`MaxMP, this`SkillPoints, this`PAtk, this`MAtk, this`PDef, this`MDef
      modifies this`FireRes, this`IceRes, this`Exp, this`ExpToNextLevel, this`SpellNames
      modifies this`CurrHP, this`CurrMP
      ensures Snapshot() == Rest(old(Snapshot()))
      ensures Exp < ExpToNextLevel
      ensures CurrHP == MaxHP && CurrMP == MaxMP
    {
      ghost var target := Rest(Snapshot());
      while Exp >= ExpToNextLevel
        invariant RestEnds(Snapshot()) && Rest(Snapshot()) == target
        decreases Exp
      {
        RestStep(Snapshot());
        LevelUpOnce();
      }
      RestBelowThreshold(Snapshot());
      CurrHP := MaxHP;
      CurrMP := MaxMP;
    }
  }

  /** One entry of the enemy definitions file: a key and the unit it names. */
  datatype EnemyDef = EnemyDef(key: string, unitData: UnitData)
}
