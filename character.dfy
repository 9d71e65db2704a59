/** The playable character as the object the engine owns: its fields are the
    source's stat, movement and tuning properties, and the character movement
    component is reduced to the two properties the character reads and writes
    (the walk-speed cap and the crouch stance). Each method updates the fields
    in place and is proved to do what CharacterModel.Step says of its call. */
module Character {
  import opened Resource
  import opened Movement
  import M = CharacterModel

  class RotrCharacter {
    // Stats
    var health: real
    var maxHealth: real
    var healthPercentage: real
    var stamina: real
    var maxStamina: real
    var staminaPercentage: real
    var staminaRegen: real

    // Movement
    var isSprinting: bool
    var sprintSpeed: real
    var runSpeed: real
    var walkSpeed: real
    var runCost: real
    var sprintCost: real

    // The character movement component
    var maxWalkSpeed: real
    var crouching: bool

    /** The fields read as a model state. */
    function Snapshot(): (s: M.State)
      reads this
    {
      M.State(
        Gauge(health, maxHealth, healthPercentage),
        Gauge(stamina, maxStamina, staminaPercentage),
        isSprinting, maxWalkSpeed, crouching,
        Tuning(staminaRegen, sprintSpeed, runSpeed, walkSpeed, runCost, sprintCost))
    }

    /** Both caps positive; nothing in the character checks this, but the bar
        updates divide by them. */
    ghost predicate Valid()
      reads this
    {
      M.WellFormed(Snapshot())
    }

    /** The declared defaults, and the constructor's speed cap set to the run speed. */
    constructor ()
      ensures Valid()
      ensures Snapshot() == M.Initial
      ensures maxWalkSpeed == runSpeed && !isSprinting
    {
      health, maxHealth, healthPercentage := 100.0, 100.0, 1.0;
      stamina, maxStamina, staminaPercentage := 100.0, 100.0, 1.0;
      staminaRegen := 2.0;
      isSprinting := false;
      sprintSpeed, runSpeed, walkSpeed := 600.0, 400.0, 100.0;
      runCost, sprintCost := 1.0, 10.0;
      crouching := false;
      new;
      maxWalkSpeed := runSpeed;
    }

    /** Adds delta to health. Returns false on death (health at or below zero):
        then only the percentage is zeroed and health keeps the unclamped sum.
        Otherwise health is capped at maxHealth and the percentage recomputed. */
    method UpdateHealth(delta: real) returns (alive: bool)
      requires Valid()
      modifies this
      ensures Valid()
      ensures Snapshot() == M.Step(old(Snapshot()), M.UpdateHealth(delta))
      ensures alive <==> old(health) + delta > 0.0
      ensures !alive ==> health == old(health) + delta && healthPercentage == 0.0
      ensures alive ==> health == Min(old(health) + delta, maxHealth)
      ensures alive ==> 0.0 < health <= maxHealth && healthPercentage == health / maxHealth
      ensures alive ==> 0.0 < healthPercentage <= 1.0
      ensures maxHealth == old(maxHealth)
      ensures stamina == old(stamina) && staminaPercentage == old(staminaPercentage)
      ensures isSprinting == old(isSprinting) && maxWalkSpeed == old(maxWalkSpeed)
    {
      health := health + delta;
      if health <= 0.0 {
        healthPercentage := 0.0;
        return false;
      }
      health := Clamp(health, 0.0, maxHealth);
      FractionOfCap(health, maxHealth);
      healthPercentage := health / maxHealth;
      return true;
    }

    /** Adds delta to stamina, with the same policy as UpdateHealth: false on
        exhaustion with the sum left unclamped, otherwise capped at maxStamina. */
    method UpdateStamina(delta: real) returns (alive: bool)
      requires Valid()
      modifies this
      ensures Valid()
      ensures Snapshot() == M.Step(old(Snapshot()), M.UpdateStamina(delta))
      ensures alive <==> old(stamina) + delta > 0.0
      ensures !alive ==> stamina == old(stamina) + delta && staminaPercentage == 0.0
      ensures alive ==> stamina == Min(old(stamina) + delta, maxStamina)
      ensures alive ==> 0.0 < stamina <= maxStamina && staminaPercentage == stamina / maxStamina
      ensures alive ==> 0.0 < staminaPercentage <= 1.0
      ensures maxStamina == old(maxStamina)
      ensures health == old(health) && healthPercentage == old(healthPercentage)
      ensures isSprinting == old(isSprinting) && maxWalkSpeed == old(maxWalkSpeed)
    {
      stamina := stamina + delta;
      if stamina <= 0.0 {
        staminaPercentage := 0.0;
        return false;
      }
      stamina := Clamp(stamina, 0.0, maxStamina);
      FractionOfCap(stamina, maxStamina);
      staminaPercentage := stamina / maxStamina;
      return true;
    }

    /** Starts sprinting and raises the speed cap; stamina is not consulted. */
    method Sprint()
      modifies this
      ensures Valid() == old(Valid())
      ensures old(Valid()) ==> Snapshot() == M.Step(old(Snapshot()), M.Sprint)
      ensures Snapshot() == old(Snapshot()).(isSprinting := true, maxWalkSpeed := sprintSpeed)
      ensures isSprinting && maxWalkSpeed == sprintSpeed
    {
      isSprinting := true;
      maxWalkSpeed := sprintSpeed;
    }

    /** Stops sprinting and restores the run speed as cap. */
    method StopSprinting()
      modifies this
      ensures Valid() == old(Valid())
      ensures old(Valid()) ==> Snapshot() == M.Step(old(Snapshot()), M.StopSprinting)
      ensures Snapshot() == M.StopSprintingState(old(Snapshot()))
      ensures !isSprinting && maxWalkSpeed == runSpeed
    {
      isSprinting := false;
      maxWalkSpeed := runSpeed;
    }

    /** Crouches when standing, stands up when crouching. */
    method ToggleCrawling()
      modifies this
      ensures Valid() == old(Valid())
      ensures old(Valid()) ==> Snapshot() == M.Step(old(Snapshot()), M.ToggleCrawling)
      ensures Snapshot() == old(Snapshot()).(crouching := !old(crouching))
    {
      if !crouching {
        crouching := true;
      } else {
        crouching := false;
      }
    }

    /** The per-frame update: regenerates stamina, minus the sprint or run cost
        when no movement is in progress, scaled by the frame time; stops
        sprinting when that exhausts stamina. */
    method Tick(movementInProgress: bool, deltaSeconds: real)
      requires Valid()
      modifies this
      ensures Valid()
      ensures Snapshot() == M.Step(old(Snapshot()), M.Tick(movementInProgress, deltaSeconds))
    {
      ghost var s0 := Snapshot();
      var staminaDelta := staminaRegen;
      if !movementInProgress {
        if isSprinting {
          staminaDelta := staminaDelta - sprintCost;
        } else {
          staminaDelta := staminaDelta - runCost;
        }
      }
      assert staminaDelta == StaminaRate(s0.tuning, movementInProgress, s0.isSprinting);
      var scaled := staminaDelta * deltaSeconds;
      M.TickIsStaminaUpdateThenStop(s0, movementInProgress, deltaSeconds, scaled);
      var alive := UpdateStamina(scaled);
      if !alive {
        StopSprinting();
      }
    }
  }

  /** A client that sees only the method contracts: a new character hit for
      150 dies with health -50, and one that sprints on a nearly empty bar
      is stopped by the next tick. */
  method Scenario()
  {
    var c := new RotrCharacter();
    var alive := c.UpdateHealth(-150.0);
    assert !alive && c.health == -50.0 && c.healthPercentage == 0.0;

    var d := new RotrCharacter();
    var ok := d.UpdateStamina(-95.0);
    assert ok && d.stamina == 5.0;
    d.Sprint();
    assert d.maxWalkSpeed == 600.0;
    d.Tick(false, 1.0);
    assert d.stamina == -3.0 && !d.isSprinting && d.maxWalkSpeed == 400.0;
  }
}
