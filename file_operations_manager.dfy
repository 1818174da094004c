/** Assets/FileOperationsManager.cs: the save-slot bookkeeping (which slot is
    in use and which file the battle scene reads) and the lazily filled caches
    of the enemy, level and spell definitions. The file system is a map from
    path to file; what the engine's JSON reader makes of a file is an input. */
module FileOperations {
  import opened Wrappers
  import opened Text
  import opened JsonObjects
  import opened Combatants
  import opened SpellDefs

  const NewGameSaveFile := "Defs/newGameSaveFile.json"

  /** A file: its text and its last write time, already formatted as
      "yyyy-MM-dd HH:mm:ss" by the clock that wrote it. */
  datatype StoredFile = StoredFile(text: string, lastWrite: string)

  /** The file of save slot `num`, relative to the project folder. */
  function GetSavePath(num: int): (path: string)
    ensures StartsWith(path, "Saves/") && EndsWith(path, ".json")
    ensures |path| == |IntToString(num)| + 11 && path[6..|path| - 5] == IntToString(num)
  {
    "Saves/" + IntToString(num) + ".json"
  }

  /** Different slots have different files. */
  lemma GetSavePathInjective(a: int, b: int)
    requires GetSavePath(a) == GetSavePath(b)
    ensures a == b
  {
    FramedInjective("Saves/", IntToString(a), IntToString(b), ".json");
    IntToStringInjective(a, b);
  }

  /** No slot's file is the new-game file, so starting a new game never reads
      a save. */
  lemma SavePathIsNotNewGame(num: int)
    ensures GetSavePath(num) != NewGameSaveFile
  {
    assert GetSavePath(num)[0] == 'S';
  }

  /** Deleting one slot's file leaves every other slot as it was. */
  lemma DeleteKeepsOtherSlots(files: map<string, StoredFile>, num: int, other: int)
    requires other != num
    ensures (GetSavePath(other) in files - {GetSavePath(num)}) == (GetSavePath(other) in files)
  {
    if GetSavePath(other) == GetSavePath(num) {
      GetSavePathInjective(other, num);
    }
  }

  /** CreateSpell: both enum names are parsed first (Enum.Parse throws on a
      name that is not a constant); "Enemy" makes an AttackSpell, "Self" a
      RestoreSpell, and every other targeting mode is skipped. */
  function CreateSpell(data: SpellData): Created {
    match (ParseTargetingMode(data.targetingMode), ParseElement(data.element))
    case (Some(mode), Some(element)) =>
      if mode.Enemy? then Made(SpellDef(AttackSpell, data.name, data.power, data.mpCost, data.cooldown, mode, element))
      else if mode.Self? then Made(SpellDef(RestoreSpell, data.name, data.power, data.mpCost, data.cooldown, mode, element))
      else Skipped
    case _ => Thrown
  }

  /** The spell made is an AttackSpell exactly for "Enemy" and a RestoreSpell
      exactly for "Self", with every field taken from the entry. */
  lemma CreateSpellFacts(data: SpellData)
    ensures CreateSpell(data).Thrown? <==>
              ParseTargetingMode(data.targetingMode).None? || ParseElement(data.element).None?
    ensures CreateSpell(data).Skipped? <==>
              !CreateSpell(data).Thrown? && data.targetingMode != "Enemy" && data.targetingMode != "Self"
    ensures CreateSpell(data).Made? ==>
              var d := CreateSpell(data).def;
              (d.kind == AttackSpell <==> data.targetingMode == "Enemy")
              && (d.kind == RestoreSpell <==> data.targetingMode == "Self")
              && d.name == data.name && d.power == data.power && d.mpCost == data.mpCost
              && d.cooldown == data.cooldown
              && TargetingModeName(d.mode) == data.targetingMode && ElementName(d.element) == data.element
  {
  }

  /** The foreach of LoadSpellDefs over the parsed file, or an exception when
      the file is missing or not valid JSON (`entries` is None). */
  function SpellDefsOf(entries: Option<seq<SpellData>>): Outcome {
    if entries.None? then Outcome([], false) else Collect(entries.value, CreateSpell)
  }

  /** The loop keeps exactly the entries CreateSpell makes something of, and
      finishes unless an entry names an unknown enum constant. */
  lemma SpellDefsFacts(entries: seq<SpellData>)
    ensures SpellDefsOf(Some(entries)).ok <==>
              forall i :: 0 <= i < |entries| ==> !CreateSpell(entries[i]).Thrown?
    ensures forall k :: 0 <= k < |SpellDefsOf(Some(entries)).made| ==>
              exists i :: 0 <= i < |entries| && CreateSpell(entries[i]) == Made(SpellDefsOf(Some(entries)).made[k])
  {
    CollectFacts(entries, CreateSpell);
  }

  /** What one call of a lazy loader leaves in the cache, and what it returns
      (None when it throws). */
  datatype CachedLoad<T> = CachedLoad(cache: Option<T>, returned: Option<T>)

  /** LoadSpellDefs as written: the empty cache list is stored before the file
      is read, and the loop appends to it, so an exception leaves the spells
      made so far in the cache. */
  function LoadSpellDefsAsWritten(cache: Option<seq<SpellDef>>, entries: Option<seq<SpellData>>)
    : (r: CachedLoad<seq<SpellDef>>)
    ensures cache.Some? ==> r == CachedLoad(cache, cache)
    ensures r.cache.Some?
    ensures r.returned.Some? ==> r.returned == r.cache
  {
    if cache.Some? then CachedLoad(cache, cache)
    else
      var o := SpellDefsOf(entries);
      CachedLoad(Some(o.made), if o.ok then Some(o.made) else Option.None)
  }

  /** The cache stores the complete result of loading the definitions. */
  ghost predicate SoundCache(cache: Option<seq<SpellDef>>, entries: Option<seq<SpellData>>) {
    cache.Some? ==> SpellDefsOf(entries) == Outcome(cache.value, true)
  }

  /** A definitions file whose second entry has the unknown targeting mode
      "Heal": the first call throws, and the second returns the one spell made
      before the exception as if loading had succeeded. */
  lemma PartialSpellCacheServed()
    ensures var entries := Some([SpellData("Fireball", 30, 10, 2, "Enemy", "Fire", "Spells/Fireball"),
                                 SpellData("Mend", 20, 5, 1, "Heal", "None", "Spells/Mend")]);
            var first := LoadSpellDefsAsWritten(Option.None, entries);
            var second := LoadSpellDefsAsWritten(first.cache, entries);
            first.returned.None? && !SpellDefsOf(entries).ok
            && second.returned == Some([SpellDef(AttackSpell, "Fireball", 30, 10, 2, Enemy, Fire)])
            && !SoundCache(first.cache, entries)
  {
    var entries := [SpellData("Fireball", 30, 10, 2, "Enemy", "Fire", "Spells/Fireball"),
                    SpellData("Mend", 20, 5, 1, "Heal", "None", "Spells/Mend")];
    assert CreateSpell(entries[0]) == Made(SpellDef(AttackSpell, "Fireball", 30, 10, 2, Enemy, Fire));
    assert CreateSpell(entries[1]) == Thrown;
    assert entries[1..][0] == entries[1];
    assert Collect(entries[1..], CreateSpell) == Outcome([], false);
    assert Collect(entries, CreateSpell) == Outcome([SpellDef(AttackSpell, "Fireball", 30, 10, 2, Enemy, Fire)], false);
  }

  /** LoadSpellDefs with the cache assigned once the loop has finished: a
      failed load leaves the cache empty, so the next call tries again. */
  function LoadSpellDefsAtomic(cache: Option<seq<SpellDef>>, entries: Option<seq<SpellData>>)
    : (r: CachedLoad<seq<SpellDef>>)
    ensures cache.Some? ==> r == CachedLoad(cache, cache)
    ensures r.returned.Some? ==> r.returned == r.cache
  {
    if cache.Some? then CachedLoad(cache, cache)
    else
      var o := SpellDefsOf(entries);
      if o.ok then CachedLoad(Some(o.made), Some(o.made)) else CachedLoad(Option.None, Option.None)
  }

  /** Every call of the corrected loader keeps the cache sound, and whatever it
      returns is the complete list of definitions. */
  lemma AtomicLoadIsSound(cache: Option<seq<SpellDef>>, entries: Option<seq<SpellData>>)
    requires SoundCache(cache, entries)
    ensures SoundCache(LoadSpellDefsAtomic(cache, entries).cache, entries)
    ensures LoadSpellDefsAtomic(cache, entries).returned.Some? ==>
              SpellDefsOf(entries).ok
              && LoadSpellDefsAtomic(cache, entries).returned.value == SpellDefsOf(entries).made
  {
  }

  /** The keys of the enemy definitions are pairwise different. */
  predicate DistinctKeys(entries: seq<EnemyDef>) {
    forall i, j :: 0 <= i < j < |entries| ==> entries[i].key != entries[j].key
  }

  /** Enumerable.ToDictionary over the keys, which throws (None) on a key that
      occurs twice. */
  function ToDictionary(entries: seq<EnemyDef>): (r: Option<map<string, UnitData>>)
    ensures r.Some? <==> DistinctKeys(entries)
    ensures r.Some? ==> r.value.Keys == (set e | e in entries :: e.key)
    ensures r.Some? ==> forall i :: 0 <= i < |entries| ==> r.value[entries[i].key] == entries[i].unitData
  {
    if entries == [] then Some(map[])
    else
      var init := entries[..|entries| - 1];
      var e := entries[|entries| - 1];
      assert entries == init + [e];
      match ToDictionary(init)
      case None => Option.None
      case Some(m) =>
        if e.key in m then
          assert !DistinctKeys(entries) by {
            var x :| x in init && x.key == e.key;
            var i :| 0 <= i < |init| && init[i] == x;
            assert entries[i].key == entries[|entries| - 1].key;
          }
          Option.None
        else
          Some(m[e.key := e.unitData])
  }

  class FileOperationsManager {
    var SaveFilePath: string
    var SaveSlot: int
    /** The files of the project folder, by path. */
    var Files: map<string, StoredFile>
    var enemyDefsCache: Option<map<string, UnitData>>
    var levelDefsCache: Option<seq<string>>
    var spellDefsCache: Option<seq<SpellDef>>

    /** The manager as Awake leaves it: empty caches, over the given files. */
    constructor (files: map<string, StoredFile>)
      ensures Files == files && SaveFilePath == "" && SaveSlot == 0
      ensures enemyDefsCache.None? && levelDefsCache.None? && spellDefsCache.None?
    {
      Files := files;
      SaveFilePath := "";
      SaveSlot := 0;
      enemyDefsCache := Option.None;
      levelDefsCache := Option.None;
      spellDefsCache := Option.None;
    }

    /** Starts a game in slot `num` from the new-game file; the scene change
        that follows is not modelled. */
    method SetUpNewGame(num: int)
      modifies this`SaveSlot, this`SaveFilePath
      ensures SaveSlot == num && SaveFilePath == NewGameSaveFile
    {
      SaveSlot := num;
      SaveFilePath := NewGameSaveFile;
    }

    predicate DoesSaveExist(num: int)
      reads this`Files
    {
      GetSavePath(num) in Files
    }

    /** The formatted last write time of the slot's file, or "No Save". */
    function GetSaveDate(num: int): (r: string)
      reads this`Files
      ensures !DoesSaveExist(num) ==> r == "No Save"
      ensures DoesSaveExist(num) ==> r == Files[GetSavePath(num)].lastWrite
    {
      var path := GetSavePath(num);
      if path in Files then Files[path].lastWrite else "No Save"
    }

    /** Continues the game saved in slot `num`. */
    method LoadGame(num: int)
      modifies this`SaveSlot, this`SaveFilePath
      ensures SaveSlot == num && SaveFilePath == GetSavePath(num)
    {
      SaveSlot := num;
      SaveFilePath := GetSavePath(SaveSlot);
    }

    /** Writes the serialised save data `json` to the current slot's file at
        time `now`, creating or replacing it. */
    method SaveGame(json: string, now: string)
      modifies this`SaveFilePath, this`Files
      ensures SaveFilePath == GetSavePath(SaveSlot)
      ensures Files == old(Files)[GetSavePath(SaveSlot) := StoredFile(json, now)]
      ensures DoesSaveExist(SaveSlot) && LoadPlayerData() == Some(json)
    {
      SaveFilePath := GetSavePath(SaveSlot);
      Files := Files[SaveFilePath := StoredFile(json, now)];
    }

    /** File.Delete of the slot's file; a missing file is no error. */
    method DeleteSave(num: int)
      modifies this`Files
      ensures Files == old(Files) - {GetSavePath(num)}
      ensures !DoesSaveExist(num)
    {
      Files := Files - {GetSavePath(num)};
    }

    /** The text of the file the battle scene loads, or None when it is
        missing (File.ReadAllText throws). */
    function LoadPlayerData(): (r: Option<string>)
      reads this`Files, this`SaveFilePath
      ensures r.Some? <==> SaveFilePath in Files
      ensures r.Some? ==> r.value == Files[SaveFilePath].text
    {
      if SaveFilePath in Files then Some(Files[SaveFilePath].text) else Option.None
    }

    /** LoadEnemyDefs: fills the cache on the first successful call. `entries`
        is the parsed enemy definitions file, None when reading or parsing
        throws; a repeated key also throws, and the cache stays empty. */
    method LoadEnemyDefs(entries: Option<seq<EnemyDef>>) returns (defs: map<string, UnitData>, thrown: bool)
      modifies this`enemyDefsCache
      ensures old(enemyDefsCache).Some? ==> !thrown && defs == old(enemyDefsCache).value && unchanged(this)
      ensures old(enemyDefsCache).None? ==>
                (thrown <==> entries.None? || !DistinctKeys(entries.value))
                && (thrown ==> enemyDefsCache.None?)
                && (!thrown ==> enemyDefsCache == ToDictionary(entries.value) == Some(defs))
    {
      defs, thrown := map[], false;
      if enemyDefsCache.None? {
        if entries.None? {
          thrown := true;
          return;
        }
        var dictionary := ToDictionary(entries.value);
        if dictionary.None? {
          thrown := true;
          return;
        }
        enemyDefsCache := dictionary;
      }
      defs := enemyDefsCache.value;
    }

    /** LoadLevelDefs: a copy of the parsed list of level configurations,
        cached on the first successful call. */
    method LoadLevelDefs(levelDefs: Option<seq<string>>) returns (defs: seq<string>, thrown: bool)
      modifies this`levelDefsCache
      ensures old(levelDefsCache).Some? ==> !thrown && defs == old(levelDefsCache).value && unchanged(this)
      ensures old(levelDefsCache).None? ==>
                (thrown <==> levelDefs.None?)
                && (!thrown ==> levelDefsCache == levelDefs && defs == levelDefs.value)
                && (thrown ==> levelDefsCache.None?)
    {
      defs, thrown := [], false;
      if levelDefsCache.None? {
        if levelDefs.None? {
          thrown := true;
          return;
        }
        levelDefsCache := Some(levelDefs.value);
      }
      defs := levelDefsCache.value;
    }

    /** LoadSpellDefs, step by step as written: the cache list is created
        first and the loop appends each spell CreateSpell makes to it. */
    method LoadSpellDefs(entries: Option<seq<SpellData>>) returns (defs: seq<SpellDef>, thrown: bool)
      modifies this`spellDefsCache
      ensures var r := LoadSpellDefsAsWritten(old(spellDefsCache), entries);
              spellDefsCache == r.cache && (thrown <==> r.returned.None?) && (!thrown ==> Some(defs) == r.returned)
    {
      defs, thrown := [], false;
      if spellDefsCache.None? {
        spellDefsCache := Some([]);
        if entries.None? {
          thrown := true;
          return;
        }
        var spellDataList := entries.value;
        ghost var target := Collect(spellDataList, CreateSpell);
        var i := 0;
        while i < |spellDataList|
          invariant 0 <= i <= |spellDataList| && spellDefsCache.Some?
          invariant target == Resume(spellDefsCache.value, Collect(spellDataList[i..], CreateSpell))
        {
          CollectStep(spellDataList, i, CreateSpell);
          var spell := CreateSpell(spellDataList[i]);
          if spell.Thrown? {
            assert spellDefsCache.value + [] == spellDefsCache.value;
            thrown := true;
            return;
          }
          if spell.Made? {
            ResumeMade(spellDefsCache.value, spell.def, Collect(spellDataList[i + 1..], CreateSpell));
            spellDefsCache := Some(spellDefsCache.value + [spell.def]);
          }
          i := i + 1;
        }
        assert spellDataList[i..] == [] && spellDefsCache.value + [] == spellDefsCache.value;
      }
      defs := spellDefsCache.value;
    }
  }
}
