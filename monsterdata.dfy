/**
 * MonsterData (02-game-mechanics/02-starter-code/Assets/Scripts/MonsterData.cs): a monster's list of
 * levels, the level it is at, and the rule that shows exactly the sprite of the current level.
 */
module Monsters {
  import opened Lists

  /** One upgrade stage. Only the price and the visibility of its sprite matter here. */
  class MonsterLevel {
    const cost: int
    var spriteActive: bool

    constructor (cost: int)
      ensures this.cost == cost && !spriteActive
    {
      this.cost := cost;
      spriteActive := false;
    }
  }

  class MonsterData {
    var levels: seq<MonsterLevel>
    var currentLevel: MonsterLevel?

    /** A component with the given levels, before OnEnable has run. */
    constructor (levels: seq<MonsterLevel>)
      ensures this.levels == levels && currentLevel == null
    {
      this.levels := levels;
      currentLevel := null;
    }

    /**
     * The level after the current one: the entry after the first occurrence of currentLevel, or null
     * when that occurrence is the last entry. A current level missing from the list counts as
     * position -1, so the answer is then the first level (null for an empty list).
     */
    function GetNextLevel(): (next: MonsterLevel?)
      reads this
      ensures forall k :: 0 <= k < |levels| && levels[k] == currentLevel && currentLevel !in levels[..k] ==>
                next == if k < |levels| - 1 then levels[k + 1] else null
      ensures currentLevel !in levels ==> next == if |levels| > 0 then levels[0] else null
      ensures next != null ==> next in levels
    {
      var index := IndexOf(levels, currentLevel);
      if index < |levels| - 1 then levels[index + 1] else null
    }

    /** The CurrentLevel setter: stores the level, then shows its sprite and hides every other one. */
    method SetCurrentLevel(value: MonsterLevel?)
      modifies this`currentLevel, levels`spriteActive
      ensures currentLevel == value
      ensures forall level :: level in levels ==> level.spriteActive == (level == value)
    {
      currentLevel := value;
      for i := 0 to |levels|
        invariant currentLevel == value
        invariant forall k :: 0 <= k < i ==> levels[k].spriteActive == (levels[k] == value)
      {
        var level := levels[i];
        if level == currentLevel {
          level.spriteActive := true;
        } else {
          level.spriteActive := false;
        }
      }
    }

    /** Enabling the component makes the first level current. */
    method OnEnable()
      requires |levels| > 0
      modifies this`currentLevel, levels`spriteActive
      ensures currentLevel == levels[0]
      ensures forall level :: level in levels ==> level.spriteActive == (level == levels[0])
    {
      SetCurrentLevel(levels[0]);
    }

    /** Moves to the next level when there is one; at the last level nothing changes. */
    method IncreaseLevel()
      modifies this`currentLevel, levels`spriteActive
      ensures old(GetNextLevel()) != null ==>
                currentLevel == old(GetNextLevel())
                && forall level :: level in levels ==> level.spriteActive == (level == currentLevel)
      ensures old(GetNextLevel()) == null ==>
                currentLevel == old(currentLevel) && forall level :: level in levels ==> unchanged(level)
    {
      var nextLevel := GetNextLevel();
      if nextLevel != null {
        SetCurrentLevel(nextLevel);
      }
    }

    /**
     * Unity's Instantiate of a monster prefab: a new component with new copies of the prefab's levels
     * (same prices, sprites hidden), on which OnEnable then runs.
     */
    static method Instantiate(prefab: MonsterData) returns (monster: MonsterData)
      requires |prefab.levels| > 0
      ensures fresh(monster)
      ensures |monster.levels| == |prefab.levels| && Distinct(monster.levels)
      ensures forall k :: 0 <= k < |monster.levels| ==>
                fresh(monster.levels[k]) && monster.levels[k].cost == prefab.levels[k].cost
      ensures monster.currentLevel == monster.levels[0]
      ensures forall level :: level in monster.levels ==> level.spriteActive == (level == monster.levels[0])
    {
      var copies: seq<MonsterLevel> := [];
      for i := 0 to |prefab.levels|
        invariant |copies| == i && Distinct(copies)
        invariant forall k :: 0 <= k < i ==> fresh(copies[k]) && copies[k].cost == prefab.levels[k].cost
      {
        var copy := new MonsterLevel(prefab.levels[i].cost);
        copies := copies + [copy];
      }
      monster := new MonsterData(copies);
      monster.OnEnable();
    }
  }

  /**
   * In a list without repeated levels the cursor moves forward by exactly one: the level after the
   * one at position k sits at position k + 1, and nothing follows the last one.
   */
  lemma NextLevelAdvances(m: MonsterData, k: int)
    requires Distinct(m.levels) && 0 <= k < |m.levels| && m.currentLevel == m.levels[k]
    ensures k < |m.levels| - 1 ==> m.GetNextLevel() == m.levels[k + 1] && IndexOf(m.levels, m.GetNextLevel()) == k + 1
    ensures k == |m.levels| - 1 ==> m.GetNextLevel() == null
  {
    assert m.currentLevel !in m.levels[..k];
    if k < |m.levels| - 1 {
      IndexOfDistinct(m.levels, k + 1);
    }
  }
}
