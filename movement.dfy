/** The movement tuning of the character: speed caps for running and
    sprinting, and the stamina economy charged by the per-frame tick. */
module Movement {

  /** The editable tuning fields; none of the character's own operations changes them. */
  datatype Tuning = Tuning(
    staminaRegen: real,
    sprintSpeed: real,
    runSpeed: real,
    walkSpeed: real,
    runCost: real,
    sprintCost: real)

  /** The values the character class declares for its tuning fields. */
  const Defaults: Tuning := Tuning(2.0, 600.0, 400.0, 100.0, 1.0, 10.0)

  /** The movement speed cap that belongs with a sprint flag. */
  function SpeedCap(t: Tuning, sprinting: bool): (cap: real)
  {
    if sprinting then t.sprintSpeed else t.runSpeed
  }

  /** Stamina change per second computed by the tick. A cost is charged only
      when no movement is in progress: then the sprint cost if sprinting,
      else the run cost. While moving, stamina only regenerates. */
  function StaminaRate(t: Tuning, moving: bool, sprinting: bool): (rate: real)
    ensures moving ==> rate == t.staminaRegen
    ensures !moving && sprinting ==> rate == t.staminaRegen - t.sprintCost
    ensures !moving && !sprinting ==> rate == t.staminaRegen - t.runCost
  {
    t.staminaRegen - (if moving then 0.0 else if sprinting then t.sprintCost else t.runCost)
  }

  /** With the default tuning a tick without movement in progress drains 8 per
      second while sprinting and regains 1 per second otherwise; with movement
      in progress it regains 2 per second. */
  lemma DefaultRates()
    ensures StaminaRate(Defaults, false, true) == -8.0
    ensures StaminaRate(Defaults, false, false) == 1.0
    ensures StaminaRate(Defaults, true, true) == StaminaRate(Defaults, true, false) == 2.0
  {
  }

  /** The default speeds are ordered sprint > run > walk. */
  lemma DefaultSpeedsOrdered()
    ensures Defaults.sprintSpeed == 600.0 && Defaults.runSpeed == 400.0 && Defaults.walkSpeed == 100.0
    ensures Defaults.sprintSpeed > Defaults.runSpeed > Defaults.walkSpeed
    ensures SpeedCap(Defaults, true) > SpeedCap(Defaults, false)
  {
  }

  /** When sprinting costs at least as much as running, a stationary sprint
      tick never gains more stamina than a stationary run tick, which never
      gains more than a tick with movement in progress. */
  lemma RatesOrdered(t: Tuning, sprinting: bool)
    requires 0.0 <= t.runCost <= t.sprintCost
    ensures StaminaRate(t, false, true) <= StaminaRate(t, false, false) <= StaminaRate(t, true, sprinting)
  {
  }
}
