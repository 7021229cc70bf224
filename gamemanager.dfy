/**
 * GameManager (02-game-mechanics/02-starter-code/Assets/Scripts/GameManager.cs): the player's gold and
 * health, the game-over latch, and the one-instance rule. The UnityEvents it raises are counted in
 * ghost fields: how often OnGoldSet, OnHealthSet and OnGameOver have been invoked.
 */
module Economy {

  class GameManager {
    var StartingGold: int
    var StartingHealth: int
    var gold: int
    var health: int
    var gameOver: bool

    ghost var goldSetEvents: nat
    ghost var healthSetEvents: nat
    ghost var gameOverEvents: nat
    /** Destroy(this) has been called on this component. */
    ghost var destroyed: bool

    /** A fresh component with the default field values; no event has fired. */
    constructor ()
      ensures StartingGold == 1000 && StartingHealth == 5
      ensures gold == 0 && health == 0 && !gameOver && !destroyed
      ensures goldSetEvents == 0 && healthSetEvents == 0 && gameOverEvents == 0
      ensures Valid()
    {
      StartingGold, StartingHealth := 1000, 5;
      gold, health, gameOver := 0, 0, false;
      goldSetEvents, healthSetEvents, gameOverEvents := 0, 0, 0;
      destroyed := false;
    }

    /** Game over has been announced once if the latch is set, and never otherwise. */
    ghost predicate Valid()
      reads this
    {
      gameOverEvents == if gameOver then 1 else 0
    }

    /**
     * The Health setter: stores the value and raises OnHealthSet; the first time health is 0 or less it
     * also raises OnGameOver and sets the latch, which nothing clears.
     */
    method SetHealth(value: int)
      requires Valid()
      modifies this`health, this`gameOver, this`healthSetEvents, this`gameOverEvents
      ensures Valid()
      ensures health == value && healthSetEvents == old(healthSetEvents) + 1
      ensures gameOver == (old(gameOver) || value <= 0)
      ensures gameOverEvents == old(gameOverEvents) + (if value <= 0 && !old(gameOver) then 1 else 0)
    {
      health := value;
      healthSetEvents := healthSetEvents + 1;
      if health <= 0 && !gameOver {
        gameOverEvents := gameOverEvents + 1;
        gameOver := true;
      }
    }

    /** The Gold setter: stores the value and raises OnGoldSet. */
    method SetGold(value: int)
      modifies this`gold, this`goldSetEvents
      ensures gold == value && goldSetEvents == old(goldSetEvents) + 1
    {
      gold := value;
      goldSetEvents := goldSetEvents + 1;
    }

    /** Start: gold and health take their starting values, through the setters. */
    method Start()
      requires Valid()
      modifies this`gold, this`goldSetEvents, this`health, this`gameOver, this`healthSetEvents, this`gameOverEvents
      ensures Valid()
      ensures gold == StartingGold && health == StartingHealth
      ensures goldSetEvents == old(goldSetEvents) + 1 && healthSetEvents == old(healthSetEvents) + 1
      ensures gameOver == (old(gameOver) || StartingHealth <= 0)
    {
      SetGold(StartingGold);
      SetHealth(StartingHealth);
    }

    /**
     * Awake: the first component to wake becomes the instance; any later one destroys itself and
     * leaves the instance as it was.
     */
    method Awake(registry: Registry)
      modifies registry, this`destroyed
      ensures old(registry.Instance) != null ==> registry.Instance == old(registry.Instance) && destroyed
      ensures old(registry.Instance) == null ==> registry.Instance == this && destroyed == old(destroyed)
    {
      if registry.Instance != null {
        destroyed := true;
        return;
      }
      registry.Instance := this;
    }
  }

  /** The static GameManager.Instance slot. */
  class Registry {
    var Instance: GameManager?

    constructor ()
      ensures Instance == null
    {
      Instance := null;
    }
  }
}
