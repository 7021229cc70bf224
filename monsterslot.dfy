/**
 * MonsterSlot (TowerDefense/Assets/Scripts/MonsterSlot.cs, and its identical copy in
 * 02-game-mechanics/02-starter-code/Assets/Scripts/MonsterSlot.cs): a click on an empty slot buys a
 * monster, a click on an occupied slot buys its next level, both paid from GameManager.Instance.Gold.
 * SFXManager.Instance.PlayTowerPlaced() is counted in a ghost field.
 */
module Slots {
  import opened Lists
  import opened Monsters
  import opened Economy

  class MonsterSlot {
    const MonsterPrefab: MonsterData
    /** GameManager.Instance, the one manager of the scene. */
    const manager: GameManager
    var placedMonster: MonsterData?
    ghost var towerPlacedSounds: nat

    /** A slot is empty and its prefab has levels; a placed monster has its own distinct levels and is at one of them. */
    ghost predicate Valid()
      reads this, MonsterPrefab, placedMonster
    {
      |MonsterPrefab.levels| > 0
      && (placedMonster != null ==>
            placedMonster.currentLevel in placedMonster.levels && Distinct(placedMonster.levels))
    }

    constructor (prefab: MonsterData, manager: GameManager)
      requires |prefab.levels| > 0
      ensures MonsterPrefab == prefab && this.manager == manager && placedMonster == null
      ensures towerPlacedSounds == 0 && Valid()
    {
      MonsterPrefab, this.manager := prefab, manager;
      placedMonster := null;
      towerPlacedSounds := 0;
    }

    /** The slot is empty and the gold covers the first level of the prefab, so paying for it leaves gold non-negative. */
    predicate CanPlaceMonster()
      requires placedMonster == null ==> |MonsterPrefab.levels| > 0
      reads this, manager, MonsterPrefab
      ensures CanPlaceMonster() ==> placedMonster == null && manager.gold - MonsterPrefab.levels[0].cost >= 0
    {
      placedMonster == null && manager.gold >= MonsterPrefab.levels[0].cost
    }

    /** The slot holds a monster that has a next level, one of its own, and paying for it leaves gold non-negative. */
    predicate CanUpgradeMonster()
      reads this, manager, placedMonster
      ensures CanUpgradeMonster() ==>
                placedMonster != null && placedMonster.GetNextLevel() in placedMonster.levels
                && manager.gold - placedMonster.GetNextLevel().cost >= 0
    {
      placedMonster != null && placedMonster.GetNextLevel() != null
      && manager.gold >= placedMonster.GetNextLevel().cost
    }

    /** Plays the sound, moves the monster up a level if it can, and charges its (new) current level. */
    method UpgradeMonster()
      requires placedMonster != null && (placedMonster.GetNextLevel() != null || placedMonster.currentLevel != null)
      modifies this`towerPlacedSounds, placedMonster`currentLevel, placedMonster.levels`spriteActive
      modifies manager`gold, manager`goldSetEvents
      ensures towerPlacedSounds == old(towerPlacedSounds) + 1 && manager.goldSetEvents == old(manager.goldSetEvents) + 1
      ensures old(placedMonster.GetNextLevel()) != null ==>
                placedMonster.currentLevel == old(placedMonster.GetNextLevel())
                && manager.gold == old(manager.gold) - old(placedMonster.GetNextLevel()).cost
                && forall l :: l in placedMonster.levels ==> l.spriteActive == (l == placedMonster.currentLevel)
      ensures old(placedMonster.GetNextLevel()) == null ==>
                placedMonster.currentLevel == old(placedMonster.currentLevel)
                && manager.gold == old(manager.gold) - placedMonster.currentLevel.cost
    {
      towerPlacedSounds := towerPlacedSounds + 1;
      placedMonster.IncreaseLevel();
      manager.SetGold(manager.gold - placedMonster.currentLevel.cost);
    }

    /** Plays the sound, instantiates the prefab into the slot, and charges the first level's cost. */
    method PlaceMonster()
      requires |MonsterPrefab.levels| > 0
      modifies this`towerPlacedSounds, this`placedMonster, manager`gold, manager`goldSetEvents
      ensures towerPlacedSounds == old(towerPlacedSounds) + 1 && manager.goldSetEvents == old(manager.goldSetEvents) + 1
      ensures placedMonster != null && fresh(placedMonster)
      ensures |placedMonster.levels| == |MonsterPrefab.levels| && Distinct(placedMonster.levels)
      ensures forall k :: 0 <= k < |placedMonster.levels| ==>
                fresh(placedMonster.levels[k]) && placedMonster.levels[k].cost == MonsterPrefab.levels[k].cost
      ensures placedMonster.currentLevel == placedMonster.levels[0]
      ensures forall l :: l in placedMonster.levels ==> l.spriteActive == (l == placedMonster.currentLevel)
      ensures manager.gold == old(manager.gold) - MonsterPrefab.levels[0].cost
    {
      towerPlacedSounds := towerPlacedSounds + 1;
      placedMonster := MonsterData.Instantiate(MonsterPrefab);
      manager.SetGold(manager.gold - MonsterPrefab.levels[0].cost);
    }

    /**
     * A click: an empty slot is bought if affordable, an occupied slot is upgraded if a next level
     * exists and is affordable, and a click whose guard fails changes nothing. The price paid is
     * the price checked, so gold that was not negative stays so.
     */
    method OnMouseUp()
      requires Valid()
      modifies this`placedMonster, this`towerPlacedSounds, manager`gold, manager`goldSetEvents
      modifies (if placedMonster == null then {} else {placedMonster})`currentLevel
      modifies (if placedMonster == null then [] else placedMonster.levels)`spriteActive
      ensures Valid()
      ensures old(placedMonster) != null ==> old(placedMonster).levels == old(placedMonster.levels)
      ensures old(placedMonster) == null && old(CanPlaceMonster()) ==>
                placedMonster != null && fresh(placedMonster)
                && placedMonster.currentLevel == placedMonster.levels[0]
                && placedMonster.currentLevel.cost == MonsterPrefab.levels[0].cost
                && (forall l :: l in placedMonster.levels ==> l.spriteActive == (l == placedMonster.currentLevel))
                && manager.gold == old(manager.gold) - MonsterPrefab.levels[0].cost
                && towerPlacedSounds == old(towerPlacedSounds) + 1
      ensures old(placedMonster) != null && old(CanUpgradeMonster()) ==>
                placedMonster == old(placedMonster)
                && placedMonster.currentLevel == old(placedMonster.GetNextLevel())
                && IndexOf(placedMonster.levels, placedMonster.currentLevel)
                   == old(IndexOf(placedMonster.levels, placedMonster.currentLevel)) + 1
                && manager.gold == old(manager.gold) - old(placedMonster.GetNextLevel()).cost
                && (forall l :: l in placedMonster.levels ==> l.spriteActive == (l == placedMonster.currentLevel))
                && towerPlacedSounds == old(towerPlacedSounds) + 1
      ensures !old(CanPlaceMonster()) && !old(CanUpgradeMonster()) ==>
                placedMonster == old(placedMonster)
                && (placedMonster != null ==> placedMonster.currentLevel == old(placedMonster.currentLevel))
                && manager.gold == old(manager.gold) && manager.goldSetEvents == old(manager.goldSetEvents)
                && towerPlacedSounds == old(towerPlacedSounds)
                && (placedMonster != null ==> forall l :: l in placedMonster.levels ==> unchanged(l))
      ensures old(manager.gold) >= 0 ==> manager.gold >= 0
    {
      if placedMonster == null {
        if CanPlaceMonster() {
          PlaceMonster();
        }
      } else if CanUpgradeMonster() {
        NextLevelAdvances(placedMonster, IndexOf(placedMonster.levels, placedMonster.currentLevel));
        UpgradeMonster();
      }
    }
  }
}
