/** Assets/UpgradeSpellPanel.cs: the panel on which a party member's spells
    are upgraded. Spell tiers are told apart by name only ("Fireball",
    "Fireball II", "Fireball III"); each slot of the panel is classified
    against the spells the unit already knows. */
module UpgradeSpells {
  import opened Text

  /** IsEqualOrWorse(existing, target), which marks the slot of `target`
      learned: the names are equal, or `target` ends in "II" and `existing`
      extends it with a name ending in "I". A known higher tier of a
      base-tier name (one not ending in "II") does not count. */
  predicate IsEqualOrWorse(existing: string, target: string) {
    existing == target
    || (StartsWith(existing, target) && EndsWith(existing, "I") && EndsWith(target, "II"))
  }

  /** IsOneTierBetter(better, worse) as written. */
  predicate IsOneTierBetter(better: string, worse: string) {
    better == worse + " II" || (better == worse + " III" && !EndsWith(better, "III"))
  }

  /** The second test of IsOneTierBetter never holds: a name that is another
      name followed by " III" ends in "III". So the predicate is just the
      " II" test. */
  lemma OneTierBetterIsSecondTier(better: string, worse: string)
    ensures IsOneTierBetter(better, worse) <==> better == worse + " II"
  {
    if better == worse + " III" {
      assert better[|better| - 3..] == " III"[1..];
    }
  }

  /** IsEqualOrWorse orders the tiers of one spell: it is reflexive,
      antisymmetric and transitive, and a strictly higher tier is a longer
      name. */
  lemma EqualOrWorseIsOrder(a: string, b: string, c: string)
    ensures IsEqualOrWorse(a, a)
    ensures IsEqualOrWorse(a, b) && a != b ==> |a| > |b|
    ensures IsEqualOrWorse(a, b) && IsEqualOrWorse(b, a) ==> a == b
    ensures IsEqualOrWorse(a, b) && IsEqualOrWorse(b, c) ==> IsEqualOrWorse(a, c)
  {
    if IsEqualOrWorse(a, b) && a != b {
      assert a[..|b|] == b;
    }
    if IsEqualOrWorse(a, b) && IsEqualOrWorse(b, c) && a != b && b != c {
      assert a[..|b|] == b && b[..|c|] == c;
      assert a[..|c|] == a[..|b|][..|c|];
    }
  }

  /** How a slot is shown: learned (blue, not clickable), learnable (green,
      clickable), learnable but no skill point left (yellow), or locked
      (grey). */
  datatype SlotState = Learned | Learnable | NoPoints | Locked

  /** The button of a slot is clickable only when the spell can be learned
      now. */
  predicate Interactable(s: SlotState) {
    s.Learnable?
  }

  /** The classification AdjustSpellSlot makes for the slot spell `current`,
      given the names of the unit's known spells. */
  function SlotOf(known: seq<string>, current: string, skillPoints: int): SlotState {
    if exists k :: k in known && IsEqualOrWorse(k, current) then Learned
    else if (exists k :: k in known && IsOneTierBetter(current, k)) || !EndsWith(current, "I") then
      if skillPoints > 0 then Learnable else NoPoints
    else Locked
  }

  /** AdjustSpellSlot: one pass over the known spells remembers some spell
      the slot is equal to or better than, and some spell the slot is one
      tier above; the slot's state follows from which were found. */
  method AdjustSpellSlot(known: seq<string>, current: string, skillPoints: int)
    returns (state: SlotState, interactable: bool)
    ensures state == SlotOf(known, current, skillPoints)
    ensures interactable == Interactable(state)
  {
    var worseSpell: string, foundWorse := "", false;
    var betterSpell: string, foundBetter := "", false;
    for i := 0 to |known|
      invariant foundWorse <==> exists k :: k in known[..i] && IsEqualOrWorse(k, current)
      invariant foundBetter ==> exists k :: k in known[..i] && IsOneTierBetter(current, k)
      invariant !foundWorse ==> (foundBetter <==> exists k :: k in known[..i] && IsOneTierBetter(current, k))
    {
      assert known[..i + 1] == known[..i] + [known[i]];
      if IsEqualOrWorse(known[i], current) {
        worseSpell, foundWorse := known[i], true;
      } else if IsOneTierBetter(current, known[i]) {
        betterSpell, foundBetter := known[i], true;
      }
    }
    assert known[..|known|] == known;
    if foundWorse {
      state, interactable := Learned, false;
    } else if foundBetter || !EndsWith(current, "I") {
      if skillPoints > 0 {
        state, interactable := Learnable, true;
      } else {
        state, interactable := NoPoints, false;
      }
    } else {
      state, interactable := Locked, false;
    }
  }

  /** A slot is learned exactly when IsEqualOrWorse holds of some known
      spell and the slot's name, whatever else the unit knows; a base-tier
      name (not ending in "I") is never locked. */
  lemma SlotOfFacts(known: seq<string>, current: string, skillPoints: int)
    ensures current in known ==> SlotOf(known, current, skillPoints) == Learned
    ensures SlotOf(known, current, skillPoints) == Learned <==>
              exists k :: k in known && IsEqualOrWorse(k, current)
    ensures !EndsWith(current, "I") ==> SlotOf(known, current, skillPoints) != Locked
    ensures known == [] ==>
              SlotOf(known, current, skillPoints) ==
                (if EndsWith(current, "I") then Locked else if skillPoints > 0 then Learnable else NoPoints)
  {
    if current in known {
      assert IsEqualOrWorse(current, current);
    }
  }

  /** A known second tier does not mark the base tier's slot learned:
      IsEqualOrWorse asks the slot's name to end in "II", so the "Fireball"
      slot of a unit knowing only "Fireball II" is offered for learning. */
  lemma BaseSlotUnderSecondTier(skillPoints: int)
    ensures SlotOf(["Fireball II"], "Fireball", skillPoints) == if skillPoints > 0 then Learnable else NoPoints
  {
    assert !EndsWith("Fireball", "II");
    assert !EndsWith("Fireball", "I");
  }

  /** With the tier names of the source, a unit knowing "Fireball" and
      "Fireball II" still finds the "Fireball III" slot locked: no known
      spell is one tier below it, and its name ends in "I". */
  lemma ThirdTierNeverLearnable(skillPoints: int)
    ensures SlotOf(["Fireball", "Fireball II"], "Fireball III", skillPoints) == Locked
  {
    var known := ["Fireball", "Fireball II"];
    var current := "Fireball III";
    forall k | k in known ensures !IsEqualOrWorse(k, current) && !IsOneTierBetter(current, k) {
      OneTierBetterIsSecondTier(current, k);
      assert k == "Fireball" || k == "Fireball II";
      assert !StartsWith(k, current);
    }
    assert EndsWith(current, "I") by { assert current[|current| - 1..] == "I"; }
  }

  /** The tier test as the naming evidently means it: a second tier is the
      base name and " II", and the third tier is the second tier and one more
      "I". */
  predicate IsOneTierAbove(better: string, worse: string) {
    better == worse + " II" || (EndsWith(worse, " II") && better == worse + "I")
  }

  /** The slot classification over the corrected tier test. */
  function SlotAbove(known: seq<string>, current: string, skillPoints: int): SlotState {
    if exists k :: k in known && IsEqualOrWorse(k, current) then Learned
    else if (exists k :: k in known && IsOneTierAbove(current, k)) || !EndsWith(current, "I") then
      if skillPoints > 0 then Learnable else NoPoints
    else Locked
  }

  /** With the corrected test the three tiers of a base name form a chain,
      and knowing the second tier makes the third learnable. */
  lemma TiersChain(base: string, skillPoints: int)
    requires !EndsWith(base, "I")
    ensures IsOneTierAbove(base + " II", base) && IsOneTierAbove(base + " III", base + " II")
    ensures SlotAbove([base, base + " II"], base + " III", skillPoints) ==
              if skillPoints > 0 then Learnable else NoPoints
  {
    var second := base + " II";
    var third := base + " III";
    assert third == second + "I";
    assert EndsWith(second, " II") by { assert second[|second| - 3..] == " II"; }
    assert IsOneTierAbove(third, second);
    forall k | k in [base, second] ensures !IsEqualOrWorse(k, third) {
      assert |k| < |third|;
    }
  }

  /** The remainder of C#'s `%`, which keeps the sign of the dividend. */
  function CSharpRemainder(a: int, n: int): (r: int)
    requires n > 0
    ensures a >= 0 ==> 0 <= r < n && r == a % n
    ensures a < 0 ==> -n < r <= 0
  {
    if a >= 0 then a % n else -((-a) % n)
  }

  /** The unit shown after ShowNext. */
  function NextUnit(shown: int, count: int): int
    requires count > 0
  {
    CSharpRemainder(shown + 1, count)
  }

  /** The unit shown after ShowPrevious. */
  function PreviousUnit(shown: int, count: int): int {
    if shown - 1 < 0 then shown - 1 + count else shown - 1
  }

  /** Both buttons keep the shown index among the party, and each undoes the
      other. */
  lemma NextPreviousInverse(shown: int, count: int)
    requires 0 <= shown < count
    ensures 0 <= NextUnit(shown, count) < count && 0 <= PreviousUnit(shown, count) < count
    ensures PreviousUnit(NextUnit(shown, count), count) == shown
    ensures NextUnit(PreviousUnit(shown, count), count) == shown
  {
    NextUnitWraps(shown, count);
    NextUnitWraps(PreviousUnit(shown, count), count);
  }

  /** ShowNext moves one place on and from the last unit back to the first. */
  lemma NextUnitWraps(shown: int, count: int)
    requires 0 <= shown < count
    ensures NextUnit(shown, count) == if shown + 1 == count then 0 else shown + 1
  {
    if shown + 1 == count {
      assert (shown + 1) % count == 0;
    } else {
      assert (shown + 1) % count == shown + 1;
    }
  }

  class UpgradeSpellPanel {
    /** Whether the panel object was found in the scene. */
    const PanelExists: bool
    /** The number of party members in the loaded save. */
    const UnitCount: nat
    var IsActive: bool
    /** The active state last given to the panel object. */
    var PanelShown: bool
    var ShownUnit: int

    constructor (panelExists: bool, unitCount: nat, panelShown: bool)
      ensures PanelExists == panelExists && UnitCount == unitCount && PanelShown == panelShown
      ensures IsActive && ShownUnit == 0
    {
      PanelExists := panelExists;
      UnitCount := unitCount;
      PanelShown := panelShown;
      IsActive := true;
      ShownUnit := 0;
    }

    /** Flips the panel between shown and hidden when it exists. */
    method ShowOrHide()
      modifies this`IsActive, this`PanelShown
      ensures PanelExists ==> IsActive == !old(IsActive) && PanelShown == IsActive
      ensures !PanelExists ==> IsActive == old(IsActive) && PanelShown == old(PanelShown)
    {
      if PanelExists {
        IsActive := !IsActive;
        PanelShown := IsActive;
      }
    }

    /** Shows the next party member, wrapping to the first. With no party
        member the increment happens and the remainder then divides by zero,
        which throws. */
    method ShowNext() returns (thrown: bool)
      modifies this`ShownUnit
      ensures thrown <==> UnitCount == 0
      ensures thrown ==> ShownUnit == old(ShownUnit) + 1
      ensures !thrown ==> ShownUnit == NextUnit(old(ShownUnit), UnitCount)
      ensures !thrown && 0 <= old(ShownUnit) ==> 0 <= ShownUnit < UnitCount
    {
      ShownUnit := ShownUnit + 1;
      if UnitCount == 0 {
        return true;
      }
      ShownUnit := CSharpRemainder(ShownUnit, UnitCount);
      thrown := false;
    }

    /** Shows the previous party member, wrapping to the last. */
    method ShowPrevious()
      modifies this`ShownUnit
      ensures ShownUnit == PreviousUnit(old(ShownUnit), UnitCount)
      ensures 0 <= old(ShownUnit) < UnitCount ==> 0 <= ShownUnit < UnitCount
    {
      ShownUnit := ShownUnit - 1;
      if ShownUnit < 0 {
        ShownUnit := ShownUnit + UnitCount;
      }
    }
  }
}
