/** Assets/SpellLoader.cs: reads a JSON array of spell entries, wraps it into
    an object so the engine's JSON reader accepts it, and turns every entry
    with an "Enemy" or "Ally" targeting mode into an AttackSpell. */
module SpellLoader {
  import opened Wrappers
  import opened Text
  import opened JsonObjects
  import opened Combatants
  import opened SpellDefs

  /** The raw array text placed as the value of a "spells" field. */
  function WrapSpellsJson(json: string): (r: string)
    ensures StartsWith(r, "{\"spells\": ") && EndsWith(r, "}")
    ensures |r| == |json| + 12 && r[11..|r| - 1] == json
  {
    "{\"spells\": " + json + "}"
  }

  /** Different array texts give different documents. */
  lemma WrapSpellsJsonInjective(a: string, b: string)
    ensures WrapSpellsJson(a) == WrapSpellsJson(b) ==> a == b
  {
    if WrapSpellsJson(a) == WrapSpellsJson(b) {
      FramedInjective("{\"spells\": ", a, b, "}");
    }
  }

  /** The targeting modes this loader builds spells for. */
  predicate Supported(targetingMode: string) {
    targetingMode == "Enemy" || targetingMode == "Ally"
  }

  /** The body of the foreach for one entry: unsupported modes are skipped
      with a warning; a supported one becomes an AttackSpell, unless its
      element is not a constant of Element, when Enum.Parse throws. */
  function LoadEntry(data: SpellData): (r: Created)
    ensures r.Skipped? <==> !Supported(data.targetingMode)
    ensures r.Thrown? <==> Supported(data.targetingMode) && ParseElement(data.element).None?
    ensures r.Made? ==>
              r.def.kind == AttackSpell && r.def.name == data.name && r.def.power == data.power
              && r.def.mpCost == data.mpCost && r.def.cooldown == data.cooldown
              && r.def.mode in {Enemy, Ally} && TargetingModeName(r.def.mode) == data.targetingMode
              && ElementName(r.def.element) == data.element
  {
    if !Supported(data.targetingMode) then Skipped
    else
      match ParseElement(data.element)
      case None => Thrown
      case Some(e) =>
        Made(SpellDef(AttackSpell, data.name, data.power, data.mpCost, data.cooldown,
                      if data.targetingMode == "Enemy" then Enemy else Ally, e))
  }

  /** The spells LoadSpells returns for the entries, when it returns. */
  function LoadedSpells(entries: seq<SpellData>): Outcome {
    Collect(entries, LoadEntry)
  }

  /** Every returned spell is an attack spell copied from a supported entry,
      and loading fails exactly when a supported entry names an unknown
      element. */
  lemma LoadedSpellsFacts(entries: seq<SpellData>)
    ensures LoadedSpells(entries).ok <==>
              forall i :: 0 <= i < |entries| && Supported(entries[i].targetingMode) ==>
                ParseElement(entries[i].element).Some?
    ensures forall k :: 0 <= k < |LoadedSpells(entries).made| ==>
              exists i :: 0 <= i < |entries| && Supported(entries[i].targetingMode)
                && LoadEntry(entries[i]) == Made(LoadedSpells(entries).made[k])
  {
    CollectFacts(entries, LoadEntry);
  }

  /** Entries that are all unsupported give no spells and no error. */
  lemma UnsupportedAreSkipped(entries: seq<SpellData>)
    requires forall i :: 0 <= i < |entries| ==> !Supported(entries[i].targetingMode)
    ensures LoadedSpells(entries) == Outcome([], true)
  {
    CollectFacts(entries, LoadEntry);
    if LoadedSpells(entries).made != [] {
      var i :| 0 <= i < |entries| && LoadEntry(entries[i]) == Made(LoadedSpells(entries).made[0]);
    }
  }

  /** LoadSpells. `json` is the file's text, or None when the file cannot be
      read, in which case File.ReadAllText throws (it never returns null, so
      the source's null check is never taken); `fromJson` stands for the
      engine's JSON reader. `thrown` reports that an exception left the
      method, in which case `spells` means nothing. */
  method LoadSpells(json: Option<string>, fromJson: string -> seq<SpellData>)
    returns (spells: seq<Spell>, thrown: bool)
    ensures json.None? ==> thrown && spells == []
    ensures json.Some? ==>
              var r := LoadedSpells(fromJson(WrapSpellsJson(json.value)));
              (thrown <==> !r.ok)
              && (!thrown ==> DescribesAll(spells, r.made))
    ensures forall k :: 0 <= k < |spells| ==> fresh(spells[k]) && spells[k].IsReady()
  {
    spells, thrown := [], false;
    if json.None? {
      return [], true;
    }
    var spellDataList := fromJson(WrapSpellsJson(json.value));
    ghost var target := LoadedSpells(spellDataList);
    ghost var defs: seq<SpellDef> := [];
    var i := 0;
    while i < |spellDataList|
      invariant 0 <= i <= |spellDataList|
      invariant target == Resume(defs, Collect(spellDataList[i..], LoadEntry))
      invariant DescribesAll(spells, defs)
      invariant forall k :: 0 <= k < |spells| ==> fresh(spells[k]) && spells[k].IsReady()
    {
      var data := spellDataList[i];
      CollectStep(spellDataList, i, LoadEntry);
      var spell, entryThrown := LoadSpell(data);
      if entryThrown {
        thrown := true;
        return;
      }
      if spell != null {
        ResumeMade(defs, LoadEntry(data).def, Collect(spellDataList[i + 1..], LoadEntry));
        DescribesAllAppend(spells, defs, spell, LoadEntry(data).def);
        spells := spells + [spell];
        defs := defs + [LoadEntry(data).def];
      }
      i := i + 1;
    }
    assert spellDataList[i..] == [] && defs + [] == defs;
  }

  /** The body of the foreach for one entry, building the spell LoadEntry
      describes. */
  method LoadSpell(data: SpellData) returns (spell: Spell?, thrown: bool)
    ensures thrown <==> LoadEntry(data).Thrown?
    ensures !thrown ==> (spell == null <==> LoadEntry(data).Skipped?)
    ensures spell != null ==> LoadEntry(data).Made? && fresh(spell) && spell.IsReady()
                              && Describes(spell, LoadEntry(data).def)
  {
    spell, thrown := null, false;
    if data.targetingMode == "Enemy" || data.targetingMode == "Ally" {
      var mode := if data.targetingMode == "Enemy" then Enemy else Ally;
      var element := ParseElement(data.element);
      if element.None? {
        thrown := true;
        return;
      }
      spell := new Spell(data.name, data.power, data.mpCost, data.cooldown, mode, element.value);
    }
  }
}
