# Inz: overworld map, combat and save files, modelled in Dafny

This project models the game logic of Inz, a turn-based RPG made in Unity. It
covers four areas:

- **The overworld map.** `MapNode` holds the two mirrored edge lists,
  `NextNodes` and `PreviousNodes`. `NodeMapGenerator` builds the map floor by
  floor from random lanes. It refuses straight runs, uncrosses crossing
  paths, and saves and loads the map as `MapData`. `TempMapTest` is the
  earlier generator, which merges nodes that land on the same lane.
  `NodeButton` moves the player along an edge.
- **Combat.** `Spell` and `AttackSpell` have a cooldown, cost and damage.
  `Unit` holds HP, MP and the cast rule. `CombatManager` is the turn state
  machine: the player's clicks, target acceptance, the enemies' turn with
  random spell and target choice, and the end of battle.
- **Progress and menus.** `UnitData.ProcessRest` handles level-ups and the
  upgrade of "Recharge" spell names. `UpgradeSpellPanel` classifies spell
  tiers and cycles through units. `SaveFileMenuButton` handles loading and
  the two-press delete.
- **Data and log.** `SpellLoader` and `FileOperationsManager` handle save
  paths, the enemy, level and spell definition caches, and spell creation
  from JSON. `MessageLog` is the bounded message queue with a temporary line.

## How things are modelled

- **Classes and plain values.** Classes the source mutates in place are
  Dafny classes with field-granular `modifies` frames. Pure helpers are
  functions. Each loop of the source is a method with its invariants.
- **Randomness.** `Random.Range` is a `RandomSource` whose draws are a fixed
  function of the call count. A property proved for every draw function
  therefore holds for every random outcome.
- **Exceptions.** A C# exception becomes a `thrown` result, `Created.Thrown`
  or `Option.None`. Each one is stated in the contract of the member that
  raises it.
- **Files.** File contents and deserialised JSON arrive as parameters, since
  files and parsing are outside the model. Files are a
  `map<string, StoredFile>`.
- **`Unit.ProcessNextTurn`.** Its body is not part of this model. It is the
  uninterpreted step `next: Unit -> TurnRefresh`, applied at both of its call
  sites.

## Model

| member | source | states |
|---|---|---|
| MapNodes.MapNode.constructor | Assets/MapNode.cs:11-17 | a new node sits at (x, y) with no edges in either direction |
| MapNodes.MapNode.Connect | Assets/MapNode.cs:19-26 | an absent edge is appended once to the successor list and once to the target's predecessor list; an existing edge changes nothing; the two lists stay mirrored and duplicate-free (Linked) |
| MapNodes.MapNode.Disconnect | Assets/MapNode.cs:28-35 | an existing edge loses its first occurrence in both lists and is then absent in both directions; Linked is kept; an absent edge changes nothing |
| MapNodes.RemoveAppended | Assets/MapNode.cs:28-35 | removing the element just appended gives back the original list, so Disconnect undoes Connect |
| MapNodes.SameSpaceEquivalence | Assets/MapNode.cs:37-40 | OccupiesSameSpace is reflexive, symmetric and transitive |
| MapGenerator.IsStraightPath | Assets/NodeMapGenerator.cs:106-121 | the loop's answer equals Straight: the floor index reaches the lookback and every one of the previous `lookback` floors has a node on the lane |
| MapGenerator.Candidate | Assets/NodeMapGenerator.cs:89 | a drawn lane lies in 0..FloorWidth-1 and within one lane of the base node's lane |
| MapGenerator.NodeMapGenerator.GenerateNode | Assets/NodeMapGenerator.cs:75-104 | after at most MaxAttempts draws, the lane chosen is not straight (unless the check is switched off); a node already generated on that lane is reused, otherwise a fresh node fills its slot; the edge from the base node is added and Linked kept; the draws used are exactly those Drawn describes |
| MapGenerator.NodeMapGenerator.ConnectBase | Assets/NodeMapGenerator.cs:53-61 | every node of the previous floor ends with at least one successor, in at most two passes, and none when it already had successors |
| MapGenerator.NodeMapGenerator.GenerateFloor | Assets/NodeMapGenerator.cs:48-68 | the new floor holds 1 to MaxNodesPerFloor fresh nodes on distinct lanes; every node of the previous floor has a successor on it; the map stays Linked |
| MapGenerator.NodeMapGenerator.CorrectPaths | Assets/NodeMapGenerator.cs:123-156 | the swaps performed are exactly the crossing pairs of the snapshot, both orders; each successor list afterwards is the in-order application of those swaps to the old lists; on a floor with distinct lanes no crossing remains |
| MapGenerator.Uncrossed | Assets/NodeMapGenerator.cs:123-156 | applying every collected swap in turn leaves no pair of nodes whose successors cross |
| MapGenerator.NodeMapGenerator.GenerateMap | Assets/NodeMapGenerator.cs:31-73 | the map has NumFloors floors and is Generated: two start nodes on lanes StartY1 and StartY2, every floor on its own X with distinct lanes and at most MaxNodesPerFloor nodes, every node below the top with a successor on the next floor, the top floor without successors, edges mirrored |
| MapGenerator.GeneratedLanesDistinct | Assets/NodeMapGenerator.cs:245-267 | no two nodes of a floor of a generated map share a lane |
| MapGenerator.CheckFloor | Assets/NodeMapGenerator.cs:253-259 | the nested loop's verdict is true exactly when the floor's lanes are distinct |
| MapGenerator.NodeMapGenerator.DebugValidateMaps | Assets/NodeMapGenerator.cs:245-267 | every map generated passes the per-floor lane check, and the map is cleared afterwards |
| MapGenerator.NodeMapGenerator.GetMapData | Assets/NodeMapGenerator.cs:158-186 | no map gives None; otherwise the record lists every node's position and the indices of its successors found on the node's own floor |
| MapGenerator.OwnFloorIndicesEmpty | Assets/NodeMapGenerator.cs:175 | for a generated map every successor index list that GetMapData records is empty, so with two or more floors the record differs from the next-floor encoding |
| MapGenerator.NodeMapGenerator.GetMapDataNextFloor | Assets/NodeMapGenerator.cs:158-186 | the corrected save: successor indices are looked up on the next floor |
| MapGenerator.GeneratedSaveReady | Assets/NodeMapGenerator.cs:281-283 | a generated map's top floor has no successors, so the save never indexes past the last floor |
| MapGenerator.NodeMapGenerator.DebugSaveMapToFile | Assets/NodeMapGenerator.cs:269-298 | the save throws exactly when there is no map or a top-floor node has a successor; otherwise it records every node with its successor indices on the next floor |
| MapGenerator.NodeMapGenerator.BuildFromData | Assets/NodeMapGenerator.cs:196-218 | the rebuilt map copies every position into fresh, distinct nodes with mirrored edges; it succeeds exactly when every index is in range, and then each recorded index is an edge |
| MapGenerator.NodeMapGenerator.LoadMapFromData | Assets/NodeMapGenerator.cs:188-219 | missing or empty data generates a fresh map; other data is rebuilt as BuildFromData states |
| MapGenerator.NodeMapGenerator.DebugLoadMapFromFile | Assets/NodeMapGenerator.cs:300-337 | a missing file leaves the map unchanged; a present one is rebuilt as BuildFromData states, even when it holds no floors (unlike LoadMapFromData, which then generates a map) |
| MapEncoding.EncodeFloors | Assets/NodeMapGenerator.cs:271-294 | the nested save loops build FloorsDataOf: one record per node, in order, with each successor's index in the floor it is looked up in (the node's own floor in GetMapData, the next floor in the debug save) |
| MapEncoding.CreateFloors | Assets/NodeMapGenerator.cs:196-206 | one fresh, edgeless node per record, at the recorded position |
| MapEncoding.ConnectFloors | Assets/NodeMapGenerator.cs:208-218 | connecting succeeds exactly when every index is in range, and then every recorded edge exists |
| MapEncoding.LoadThenSave | Assets/NodeMapGenerator.cs:188-219 | saving a map loaded from canonical data gives that data back |
| MapEncoding.SaveThenLoad | Assets/NodeMapGenerator.cs:269-298 | loading what a save-ready map (every generated one) saves gives back the same record, the same positions and the same successors, node for node |
| TempMapTest.NodeMapGenerator.StartFloor | Assets/TempMapTest.cs:24-34 | the first floor is two fresh, edgeless nodes on lanes FloorWidth/3 and 2*FloorWidth/3 |
| TempMapTest.ShapedStart | Assets/TempMapTest.cs:24-34 | the start floor satisfies the generator's shape invariant |
| TempMapTest.Candidate | Assets/TempMapTest.cs:51 | the clamped lane lies in 0..FloorWidth-1 and within one lane of the base |
| TempMapTest.NodeMapGenerator.DrawLane | Assets/TempMapTest.cs:49-52 | the do-while draws until a lane that is not straight over the two previous floors; the draws used are those DrawnWithin describes |
| TempMapTest.DrawnWithinUnique | Assets/TempMapTest.cs:49-52 | the draw count and the outcome of the do-while are determined by the draws |
| TempMapTest.MoreFuel | Assets/TempMapTest.cs:49-52 | a draw that ends within some bound ends the same way within any larger bound |
| TempMapTest.NodeMapGenerator.NewNodeOn | Assets/TempMapTest.cs:47-56 | the new node is fresh, one floor up, on a non-straight lane, and the single new edge is from the base node |
| TempMapTest.NodeMapGenerator.SeedFloor | Assets/TempMapTest.cs:43-58 | afterwards every node of the previous floor has a successor; the new nodes are fresh, one floor up, on non-straight lanes, and the only new edges run from the previous floor to them; on a floor of leaves one node is made per base node |
| TempMapTest.NodeMapGenerator.FillFloor | Assets/TempMapTest.cs:61-74 | the floor grows to max(its size, SoftDesiredNumOfConnections) nodes, each from a random base on the previous floor |
| TempMapTest.SwapIfCrossing | Assets/TempMapTest.cs:114-119 | the two lanes are exchanged exactly when they cross the bases' lanes; on the lane snapshot of any set holding both successors this is CrossSwap; the floor's multiset of lanes is unchanged |
| TempMapTest.CorrectPaths | Assets/TempMapTest.cs:99-124 | the lanes of both floors afterwards are PathsPass of the old lanes: for every ordered pair of distinct bases at most one lane apart (lanes read at that point), every crossing pair of their successors exchanges lanes, in the order of the four loops; the current floor's multiset of lanes is kept |
| TempMapTest.PathsPassPermutes | Assets/TempMapTest.cs:99-124 | the fold only moves lanes among the successors' floor: the multiset of that floor's lanes is kept and no other node's lane changes |
| TempMapTest.BagKeeps | Assets/TempMapTest.cs:99-124 | a lane property that holds for every lane before the swaps holds after them |
| TempMapTest.Merge | Assets/TempMapTest.cs:143-169 | b's edges are moved onto a, with every edge of b renamed to a and no duplicate; b ends with no edges; edges stay mirrored |
| TempMapTest.RemoveDuplicates | Assets/TempMapTest.cs:126-180 | the floor kept is Survivors: the first node of each space, in order; every removed node's edges are renamed onto its survivor; removed nodes are isolated; edges stay mirrored |
| TempMapTest.SurvivorsDistinct | Assets/TempMapTest.cs:126-180 | no two survivors occupy the same space |
| TempMapTest.SurvivorsPositions | Assets/TempMapTest.cs:131-178 | the survivors sit at increasing positions of the floor, each is the first occurrence of its space, and every first occurrence is among them |
| TempMapTest.MergedNodesDetached | Assets/TempMapTest.cs:160-169 | no node still points at a removed node; a removed node's successors and predecessors are now its survivor's |
| TempMapTest.ShapedDistinct | Assets/TempMapTest.cs:76-78 | after swapping and merging, every floor's lanes are distinct |
| TempMapTest.ShapedPaths | Assets/TempMapTest.cs:37-79 | the generated floors satisfy the path invariant shared with NodeMapGenerator |
| TempMapTest.NodeMapGenerator.GenerateMap | Assets/TempMapTest.cs:22-80 | a completed generation has NumFloors floors in the Shaped invariant: distinct lanes, successors one floor up, no straight run, mirrored edges |
| TempMapTest.NodeMapGenerator.ValidateMaps | Assets/TempMapTest.cs:277-299 | every completed map passes the lane assertion, and the floors are cleared |
| NodeButtons.FirstFlagged | Assets/NodeButton.cs:53-62 | the index of the first predecessor holding the player, or -1 exactly when none does |
| NodeButtons.NodeButton.TryMoveHere | Assets/NodeButton.cs:47-74 | the move happens exactly when it is the start move on floor 0 or a predecessor holds the player; only the first such predecessor loses the flag; the node gains it; CurrentFloor becomes the node's floor; a refused move changes nothing |
| Combatants.ParseElement | Assets/Spell.cs:4-9 | parsing succeeds exactly on the three element names and gives back the element named |
| Combatants.ParseTargetingMode | Assets/Spell.cs:11-19 | parsing succeeds exactly on the six mode names and gives back the mode named |
| Combatants.ParseNames | Assets/Spell.cs:4-19 | every element and mode parses from its own name |
| Combatants.Damage | Assets/Spell.cs:72 | damage is never negative; it is power + attack - defence - resistance, or 0 when that is negative |
| Combatants.DamageMonotone | Assets/Spell.cs:72 | more attack, less defence or less resistance never lowers damage |
| Combatants.Spell.constructor | Assets/Spell.cs:33-41 | the spell keeps its name, power, cost, cooldown, mode and element, and is ready |
| Combatants.Spell.ReadyXorOnCooldown | Assets/Spell.cs:43-51 | with a cooldown that is not negative exactly one of IsReady and IsOnCooldown holds; with a negative one neither does |
| Combatants.Spell.StartCooldown | Assets/Spell.cs:45 | the remaining cooldown becomes the full cooldown, so a positive cooldown puts the spell on cooldown |
| Combatants.Spell.ReduceCooldown | Assets/Spell.cs:47 | the remaining cooldown drops by one and not below zero |
| Combatants.CooldownAfterCount | Assets/Spell.cs:47 | k reductions leave max(remaining - k, 0) |
| Combatants.ReadyAfterCooldown | Assets/Spell.cs:43-47 | after casting, the spell is still on cooldown after fewer than `Cooldown` reductions and ready after `Cooldown` or more |
| Combatants.Spell.Execute | Assets/Spell.cs:64-79 | a spell that is not ready changes nothing; otherwise the caster pays the cost (clamped), the target takes Damage (clamped) and loses its action at zero HP, the cooldown restarts and the caster's action is spent |
| Combatants.Unit.constructor | Assets/Unit.cs:8-26 | the default stats: maxHP and maxMP 500, currHP and currMP 490, regen 25, attacks 40, defences 20, no spells, Fire and Ice resistance 0 |
| Combatants.Unit.Initialize | Assets/Unit.cs:40-58 | the unit's spell list becomes the one given |
| Combatants.Unit.ChangeHPBy | Assets/Unit.cs:123-128 | HP becomes old HP + value clamped to 0..maxHP |
| Combatants.Unit.ChangeMPBy | Assets/Unit.cs:130-135 | MP becomes old MP + value clamped to 0..maxMP |
| Combatants.Unit.GetResistance | Assets/Unit.cs:137-140 | the stored resistance of the element, or 0 when none is stored |
| Combatants.Unit.CanAffordCast | Assets/Unit.cs:142-145 | the unit can pay a cost exactly when its MP is at least that cost |
| Combatants.Unit.ApplyDamage | Assets/Unit.cs:147-155 | HP drops by the damage, clamped, and the unit can no longer act once HP reaches 0 |
| Combatants.Unit.CastSpell | Assets/Unit.cs:94-110 | a spell on cooldown or too expensive changes nothing; otherwise MP is charged, then Execute runs, which charges it a second time on a ready spell |
| Combatants.ChargedTwice | Assets/Unit.cs:108 | the double charge leaves max(MP - 2*cost, 0) |
| Combatants.Unit.ProcessNextTurn | Assets/CombatManager.cs:339 | the turn refresh sets the unit's HP, MP, action flag and the listed spell cooldowns to the values given, and nothing else |
| Combat.BattleEndOf | Assets/CombatManager.cs:319-331 | an empty party is a loss; otherwise no enemies left is a win; otherwise the battle goes on |
| Combat.LevelEnemies | Assets/CombatManager.cs:93-108 | the loop's list is KnownDefs of the level line's comma-separated, trimmed keys |
| Combat.CollectDefs | Assets/CombatManager.cs:97-108 | the loop keeps, in order, the definition of every trimmed piece that has one |
| Combat.KnownDefsFacts | Assets/CombatManager.cs:97-108 | every enemy spawned is the definition of some key; with every key known the enemies are the keys' definitions one for one; with none known the level is empty |
| Combat.AcceptsOnlySingleTarget | Assets/CombatManager.cs:226-238 | only the Self, Ally and Enemy modes ever accept a clicked unit |
| Combat.CastOnEffect | Assets/CombatManager.cs:355 | the value-level cast agrees with Spell.Execute on HP, MP, flags and cooldowns |
| Combat.FirstCastable | Assets/CombatManager.cs:376-383 | the first castable spell of the list, or none exactly when no spell is castable |
| Combat.ChooseSpellForEnemy | Assets/CombatManager.cs:368-385 | throws exactly on an empty spell list; the random pick when castable; otherwise the first castable spell, or null when there is none |
| Combat.ChooseRandomTarget | Assets/CombatManager.cs:386-390 | null exactly on an empty list, otherwise a member of the list |
| Combat.EnemyPassHalts | Assets/CombatManager.cs:358-363 | once the pass has stopped or thrown, the enemies after that point change nothing |
| Combat.IdleEnemiesPass | Assets/CombatManager.cs:345-364 | enemies that cannot act change nothing and draw no random numbers |
| Combat.EmptyPartyStops | Assets/CombatManager.cs:345-363 | with an empty party, the first enemy that can act draws its spell, finds no target and the pass stops |
| Combat.EnemyPassOnlyHurtsParty | Assets/CombatManager.cs:345-364 | in the enemies' pass only party members lose HP, no HP ever rises, HP stays within 0..maxHP, and draws are only consumed |
| Combat.RefreshAllEffect | Assets/CombatManager.cs:394-397 | refreshing a list of units gives each listed unit its `next` state and leaves other units, and spells no listed unit owns, alone |
| Combat.CombatManager.constructor | Assets/CombatManager.cs:13-37 | the manager starts in INIT at turn 1 with no units and nothing selected |
| Combat.CombatManager.CheckTurnProgress | Assets/CombatManager.cs:307-317 | PLAYER exactly when some party member can act, else ENEMY |
| Combat.CombatManager.RefreshUnitSelections | Assets/CombatManager.cs:278-289 | throws exactly with no active unit; in the player's turn it recomputes the state from the party's flags |
| Combat.CombatManager.Start | Assets/CombatManager.cs:48-132 | the units are installed, the first party member is active, an empty party throws; otherwise the turn state follows the party's flags |
| Combat.CombatManager.SelectSpell | Assets/CombatManager.cs:265-269 | the spell is selected, and the call throws exactly with no active unit |
| Combat.CombatManager.CastSpell | Assets/CombatManager.cs:271-276 | in the player's turn, with an active unit that can act and a target, the spell executes as Spell.Execute states; otherwise nothing changes |
| Combat.CombatManager.SelectUnit | Assets/CombatManager.cs:210-263 | a click without an active unit or spell switches the active unit; a click the spell accepts casts and clears the selection; other clicks on player units switch; the target is always cleared; the call throws exactly on an enemy click with no active unit |
| Combat.CombatManager.ChooseTarget | Assets/CombatManager.cs:226-238 | the clicked unit becomes the target exactly when the spell's mode accepts it |
| Combat.CombatManager.CastAtTarget | Assets/CombatManager.cs:240-253 | the cast happens on the target, then the spell and target are cleared and the turn state recomputed |
| Combat.CombatManager.SwitchActive | Assets/CombatManager.cs:256-261 | a player unit becomes active; others leave it; the refresh throws exactly with no active unit |
| Combat.CombatManager.RemoveUnit | Assets/CombatManager.cs:291-305 | the unit's first occurrence leaves its own list, the other list is kept, and the outcome is BattleEndOf the new sizes |
| Combat.CombatManager.StartPlayerTurn | Assets/CombatManager.cs:392-402 | every party member is refreshed by `next`; with an active unit the turn number grows by one and the state is PLAYER exactly when some refreshed member can act |
| Combat.CombatManager.EnemyAction | Assets/CombatManager.cs:349-357 | one enemy's action equals EnemyStep: its spell and target choice from the draws, then the cast |
| Combat.CombatManager.EnemyTurnStep | Assets/CombatManager.cs:345-364 | one loop pass equals EnemyStep: an enemy that cannot act changes nothing; one that can casts ChooseSpellForEnemy's pick on ChooseRandomTarget's pick |
| Combat.CombatManager.HandleEnemyTurn | Assets/CombatManager.cs:333-366 | outside ENEMY nothing changes; in ENEMY every enemy is refreshed by `next`, the enemies act in list order as EnemyPass states, and a completed pass starts the player's turn: it throws exactly without an active unit, and otherwise moves the counter on and leaves the turn to the player exactly when some party member can act after the party's refresh |
| JsonObjects.Rest | Assets/JsonObjects.cs:53-78 | the loop ends with experience below the threshold, and the threshold never shrinks |
| JsonObjects.RestNeverEnds | Assets/JsonObjects.cs:55 | with a threshold that is not positive and experience that reaches it, the loop condition holds after any number of passes |
| JsonObjects.RestIsLevelUps | Assets/JsonObjects.cs:55-75 | a rest is a number of single level-ups |
| JsonObjects.LevelUpsGains | Assets/JsonObjects.cs:57-67 | after k levels the stats have grown by k times the fixed gains and the threshold by 2^k |
| JsonObjects.RestAtThreshold | Assets/JsonObjects.cs:55-67 | experience exactly at the threshold gives one level, 0 experience and a doubled threshold |
| JsonObjects.UpgradeSpellNames | Assets/JsonObjects.cs:68-74 | the in-place loop upgrades every name independently: a name starting with "Recharge" and not ending in "III" gains an "I", every other name is kept |
| JsonObjects.RechargeTiers | Assets/JsonObjects.cs:68-74 | "Recharge" becomes "RechargeI", "RechargeII" and then "RechargeIII", which stays as it is |
| JsonObjects.UnitData.GainLevelStats | Assets/JsonObjects.cs:57-65 | each stat grows by its fixed amount |
| JsonObjects.UnitData.LevelUpOnce | Assets/JsonObjects.cs:57-74 | one pass of the loop gives LevelUp of the old progress |
| JsonObjects.UnitData.ProcessRest | Assets/JsonObjects.cs:53-78 | the progress afterwards is Rest of the old one, experience is below the threshold, and HP and MP are full |
| UpgradeSpells.OneTierBetterIsSecondTier | Assets/UpgradeSpellPanel.cs:261-266 | IsOneTierBetter holds exactly for "X II" over "X"; the " III" disjunct never holds |
| UpgradeSpells.EqualOrWorseIsOrder | Assets/UpgradeSpellPanel.cs:250-259 | IsEqualOrWorse is reflexive, antisymmetric and transitive, and a strictly better spell has a longer name |
| UpgradeSpells.AdjustSpellSlot | Assets/UpgradeSpellPanel.cs:195-248 | the slot's classification is SlotOf, in the source's order of checks, and the button is interactable exactly when the slot is learnable |
| UpgradeSpells.SlotOfFacts | Assets/UpgradeSpellPanel.cs:195-248 | a slot is learned exactly when IsEqualOrWorse holds of it and some known spell: the names are equal, or the slot's name ends in "II" and the known name starts with it and ends in "I"; a base-tier name is never locked; with nothing known a tier name is locked and a base name is learnable exactly when there are points |
| UpgradeSpells.BaseSlotUnderSecondTier | Assets/UpgradeSpellPanel.cs:250-256 | a known second tier does not mark its base tier learned: with only "Fireball II" known, the "Fireball" slot is learnable when there are points and short of points otherwise |
| UpgradeSpells.ThirdTierNeverLearnable | Assets/UpgradeSpellPanel.cs:264 | as written, "Fireball III" stays locked even when "Fireball" and "Fireball II" are known, at any number of skill points |
| UpgradeSpells.TiersChain | Assets/UpgradeSpellPanel.cs:261-266 | with the tier test corrected, tier III follows tier II and becomes learnable after it |
| UpgradeSpells.CSharpRemainder | Assets/UpgradeSpellPanel.cs:41 | C#'s `%`: the Euclidean remainder for non-negative numbers, a non-positive remainder for negative ones |
| UpgradeSpells.NextPreviousInverse | Assets/UpgradeSpellPanel.cs:38-53 | ShowNext and ShowPrevious stay in range and undo each other |
| UpgradeSpells.NextUnitWraps | Assets/UpgradeSpellPanel.cs:41 | the next unit after the last is the first |
| UpgradeSpells.UpgradeSpellPanel.ShowOrHide | Assets/UpgradeSpellPanel.cs:25-36 | an existing panel toggles and shows exactly when active; a missing one changes nothing |
| UpgradeSpells.UpgradeSpellPanel.ShowNext | Assets/UpgradeSpellPanel.cs:38-43 | throws exactly with no units; otherwise moves to the next unit, wrapping |
| UpgradeSpells.UpgradeSpellPanel.ShowPrevious | Assets/UpgradeSpellPanel.cs:45-53 | moves to the previous unit, wrapping from the first to the last |
| SpellLoader.WrapSpellsJson | Assets/SpellLoader.cs:16 | the file text is wrapped as the value of a "spells" field, and the wrapping is injective |
| SpellLoader.LoadEntry | Assets/SpellLoader.cs:28-43 | an entry whose mode is not "Enemy" or "Ally" is skipped; a bad element throws; otherwise a ready spell with the entry's values is made |
| SpellLoader.LoadedSpellsFacts | Assets/SpellLoader.cs:21-43 | loading succeeds exactly when no supported entry has a bad element, and every spell made comes from some entry |
| SpellLoader.UnsupportedAreSkipped | Assets/SpellLoader.cs:21-43 | a file with only unsupported entries gives an empty list |
| SpellLoader.LoadSpell | Assets/SpellLoader.cs:21-43 | the loop body for one entry: throws, skips or makes a fresh ready spell exactly as LoadEntry says |
| SpellLoader.LoadSpells | Assets/SpellLoader.cs:7-47 | a missing file throws; otherwise the list is LoadedSpells of the entries, all fresh and ready |
| FileOperations.GetSavePath | Assets/FileOperationsManager.cs:43-49 | the path is "Saves/" + the slot number + ".json" |
| FileOperations.GetSavePathInjective | Assets/FileOperationsManager.cs:43-49 | distinct slots have distinct save paths |
| FileOperations.SavePathIsNotNewGame | Assets/FileOperationsManager.cs:36-49 | no slot's path is the new-game save file |
| FileOperations.DeleteKeepsOtherSlots | Assets/FileOperationsManager.cs:81-84 | deleting one slot leaves every other slot's file as it was |
| FileOperations.CreateSpellFacts | Assets/FileOperationsManager.cs:142-161 | an unknown mode or element throws; modes other than Enemy and Self are skipped; Enemy makes an attack spell and Self a restore spell, each with the entry's values |
| FileOperations.SpellDefsFacts | Assets/FileOperationsManager.cs:114-140 | the load succeeds exactly when every entry can be created, and each definition describes its entry |
| FileOperations.PartialSpellCacheServed | Assets/FileOperationsManager.cs:114-140 | as written, a load that throws on its second entry leaves the first in the cache, and the next call serves that partial list |
| FileOperations.AtomicLoadIsSound | Assets/FileOperationsManager.cs:114-140 | with the cache assigned only after the loop, the cache always describes the whole file |
| FileOperations.ToDictionary | Assets/FileOperationsManager.cs:98 | a map of the entries exists exactly when the keys are distinct, and maps each key to its unit |
| FileOperations.FileOperationsManager.SetUpNewGame | Assets/FileOperationsManager.cs:36-41 | the slot is set and the path is the new-game file |
| FileOperations.FileOperationsManager.DoesSaveExist | Assets/FileOperationsManager.cs:51-54 | a save exists exactly when the slot's path is a file |
| FileOperations.FileOperationsManager.GetSaveDate | Assets/FileOperationsManager.cs:56-65 | "No Save" exactly when the slot has no file, otherwise the file's write time |
| FileOperations.FileOperationsManager.LoadGame | Assets/FileOperationsManager.cs:67-72 | the slot is set and the path is that slot's save path |
| FileOperations.FileOperationsManager.SaveGame | Assets/FileOperationsManager.cs:74-79 | the slot's file is written with the text and time, and reading it back gives the text |
| FileOperations.FileOperationsManager.DeleteSave | Assets/FileOperationsManager.cs:81-84 | exactly that slot's file is removed |
| FileOperations.FileOperationsManager.LoadPlayerData | Assets/FileOperationsManager.cs:86-90 | the current path's text, or none exactly when the file is missing |
| FileOperations.FileOperationsManager.LoadEnemyDefs | Assets/FileOperationsManager.cs:92-101 | a cached result is served unchanged; otherwise the file's entries become the cached map, and duplicate keys or a missing file throw |
| FileOperations.FileOperationsManager.LoadLevelDefs | Assets/FileOperationsManager.cs:103-112 | a cached result is served unchanged; otherwise the file's lines become the cache, and a missing file throws |
| FileOperations.FileOperationsManager.LoadSpellDefs | Assets/FileOperationsManager.cs:114-140 | the cache and the result follow the as-written load: the cache is stored first and grows entry by entry |
| MessageLogs.EnqueuedKeepsNewest | Assets/MessageLog.cs:26-35 | the queue keeps the newest messages, at most maxMessages, with the new one last |
| MessageLogs.RenderedLines | Assets/MessageLog.cs:51-63 | splitting the rendered log at newlines gives the messages followed by the temporary line |
| MessageLogs.TickedExpires | Assets/MessageLog.cs:15-25 | the temporary line expires exactly when the frame times add up to its timer, and otherwise the timer drops by their sum |
| MessageLogs.MessageLog.constructor | Assets/MessageLog.cs:7-13 | the log starts empty, with no temporary line |
| MessageLogs.MessageLog.Update | Assets/MessageLog.cs:15-25 | with a temporary line the timer drops by the frame time, and the line is removed once the timer reaches 0; without one nothing changes |
| MessageLogs.MessageLog.AddMessage | Assets/MessageLog.cs:26-35 | the message is enqueued, the oldest dropped past the limit, the temporary line removed, and the text rebuilt |
| MessageLogs.MessageLog.AddTemporaryMessage | Assets/MessageLog.cs:37-43 | the timer restarts and the temporary line is stored, with a leading newline when the log is not empty |
| MessageLogs.MessageLog.RemoveTemporaryMessage | Assets/MessageLog.cs:45-49 | the temporary line is removed and the text is the messages alone |
| MessageLogs.MessageLog.UpdateLog | Assets/MessageLog.cs:51-63 | the text is the joined messages followed by the temporary line, which gains another leading newline on each rebuild |
| MessageLogs.MessageLog.ClearMessages | Assets/MessageLog.cs:65-69 | no messages remain and the timer is reset |
| SaveSlots.LoadLabel | Assets/SaveFileMenuButton.cs:40 | the label is "Load " followed by the slot number |
| SaveSlots.LoadLabelDistinct | Assets/SaveFileMenuButton.cs:35-52 | distinct slots get distinct labels, none of them "New" |
| SaveSlots.SaveFileMenuButton.constructor | Assets/SaveFileMenuButton.cs:26-33 | the button starts without a pending confirmation and shows the slot's state |
| SaveSlots.SaveFileMenuButton.UpdateButtonState | Assets/SaveFileMenuButton.cs:35-52 | the labels and the delete button follow whether the slot's save exists |
| SaveSlots.SaveFileMenuButton.OnLoadButtonClicked | Assets/SaveFileMenuButton.cs:54-64 | an existing save is loaded from its slot's path; otherwise a new game is set up in the slot |
| SaveSlots.SaveFileMenuButton.OnDeleteButtonClicked | Assets/SaveFileMenuButton.cs:66-85 | the first press asks for confirmation; the second deletes only this slot's file and refreshes the button |
| SaveSlots.SaveFileMenuButton.ResetConfirmationAfterDelay | Assets/SaveFileMenuButton.cs:87-95 | a pending confirmation is cancelled and the label restored; otherwise the label is kept |
| SaveSlots.SaveFileMenuButton.ConfirmationTimeout | Assets/SaveFileMenuButton.cs:83-95 | the two-second wait of the coroutine started by a first press ends: the coroutine restores the label it saved while the confirmation is still pending, and is then finished; with no coroutine running nothing changes |
| SaveSlots.DeletePressSequences | Assets/SaveFileMenuButton.cs:66-85 | one press deletes nothing; two presses delete this slot's save |
| Text.Split | Assets/CombatManager.cs:97 | joining the pieces with the separator gives the text back, and no piece contains the separator |
| Text.TrimFramed | Assets/CombatManager.cs:99 | the trimmed text is a slice of the original with only white space around it, and it neither starts nor ends with white space |
| Text.TrimIdempotent | Assets/CombatManager.cs:99 | trimming twice is trimming once |
| UnityMath.Clamp | Assets/Unit.cs:126 | the result lies in the range and equals the value when the value lies in it |
| UnityMath.RandomSource.Range | Assets/CombatManager.cs:371 | the draw lies in [lo, hi) for a non-empty range and consumes one call |
| Lists.RemoveFirstMultiset | Assets/MapNode.cs:32-33 | List.Remove takes away exactly one copy of the element, if there is one |
| Lists.IndexOf | Assets/NodeMapGenerator.cs:175 | the first index holding the element, or -1 exactly when it is absent |

## Left out

- `Spell.Execute` with three arguments, called at CombatManager.cs:275 and :355: Spell.cs declares no three-argument Execute. `Combat.CombatManager.CastSpell`, `Combat.CombatManager.EnemyAction` and `Combat.CombatManager.HandleEnemyTurn` take it to be `AttackSpell.Execute` (Spell.cs:64-79), which does not check affordability. The comment at CombatManager.cs:275 says the check moved into the spell class; that check is not modelled.
- `Combat.ChooseSpellForEnemy` calls `CanAffordCast`, but Unit.cs declares only `canAffordCast` (Unit.cs:142). The model takes that method (Unit.cs:142-145).
- `Combatants.Unit.ProcessNextTurn`: its body is not in Unit.cs. It is uninterpreted: the refreshed HP, MP, action flag and cooldowns come from the parameter `next`.
- `Combatants.Unit.ChangeHPBy`, `Combatants.Unit.ChangeMPBy` and `Combatants.Damage` use unbounded integers. C#'s 32-bit wrap-around of the sums is not modelled.
- `JsonObjects.UnitData.ProcessRest`: the stat gains and `ExpToNextLevel *= 2` do not wrap at 32 bits.
- `JsonObjects.UnitData.ProcessRest` requires that the loop ends. With a threshold that is not positive and experience that reaches it, the source loops forever (`JsonObjects.RestNeverEnds`). That case has no outcome to state.
- `Text.StartsWith` and `Text.EndsWith` compare ordinally. The culture-sensitive comparison of the one-argument C# overloads is not modelled.
- `Combatants.ParseElement` and `Combatants.ParseTargetingMode` accept exactly the enum names. `Enum.Parse` also accepts numeric strings and surrounding blanks, and that is not modelled.
- MapNodeData's `EncounterType` and `IsPlayerHere` fields, and its four-argument constructor (JsonObjects.cs:125-141), are not modelled. They are set outside the core.
- The spell caches hold `SpellDef` values, not shared mutable `Spell` objects. Aliasing of cooldowns between users of one cached spell is lost.
- `FileOperations.FileOperationsManager.LoadLevelDefs` stores the level list as strings. The type mismatch at FileOperationsManager.cs:109 is not modelled.
- File I/O, JSON parsing and the clock are parameters. Sprites, colours, the UI, scene loading and coroutine timing are not modelled, apart from the confirmation timeout.
- These source methods are not modelled: `SpawnUnit` and `Update` of CombatManager, the `Awake` methods, `DebugPrintMap`, `InitializeUpgradeSpellPanel` and `ShowForUnit`. The empty `GetLowerTierSpell` and `OnSpellUpgradeClicked` are also not modelled.
- MessageLog's float timers are reals. Float rounding is not modelled.
- `TempMapTest.NodeMapGenerator.GenerateMap` and `TempMapTest.NodeMapGenerator.ValidateMaps` take a `fuel` bound on the do-while draws. With no lane available the source would draw forever (TempMapTest.cs:49-52). A run out of fuel reports `completed == false`.
- `TempMapTest.RemoveDuplicates` requires that the floor has no duplicate entries and no edges inside it. Every floor built at TempMapTest.cs:37-76 satisfies both.
- TempMapTest.cs's `SaveMapToFile`, `LoadMapFromFile`, `DebugPrintMap` and `Start` are not modelled separately. They repeat NodeMapGenerator's encoding, which `MapEncoding` models. Its `IsStraightPath` (TempMapTest.cs:82-97) is the same as `MapGenerator.IsStraightPath`.
- `MapGenerator.NodeMapGenerator.ConnectBase` reports its number of passes as a ghost result.

## Findings

| source | as written | input that shows it | evidently intended | confidence | as-written member | corrected member |
|---|---|---|---|---|---|---|
| Assets/NodeMapGenerator.cs:175 | GetMapData looks each successor up in the node's own floor, where it never is, so no successor index is recorded | any generated map with two or more floors | look it up in the next floor, as DebugSaveMapToFile does | not executed | MapGenerator.OwnFloorIndicesEmpty | MapGenerator.NodeMapGenerator.GetMapDataNextFloor |
| Assets/FileOperationsManager.cs:114-140 | the spell cache is assigned before the loop; a throw from CreateSpell leaves a partial list that later calls serve | a file whose first entry is valid and whose second has the unknown targeting mode "Heal" | assign the cache only after every entry is created | not executed | FileOperations.PartialSpellCacheServed | FileOperations.AtomicLoadIsSound |
| Assets/UpgradeSpellPanel.cs:264 | the " III" test asks for a name that ends in "III" and does not end in "III", so it never holds and no third tier is ever one tier better than anything | known spells "Fireball" and "Fireball II", slot "Fireball III" | tier III is one tier above tier II | not executed | UpgradeSpells.ThirdTierNeverLearnable | UpgradeSpells.TiersChain |
