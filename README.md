# ROTR character: resources and movement

A model of the playable character of ROTR, a third-person game built on a
commercial engine. The character's own logic is a small state machine on one
object:

- two resource bars, health and stamina, each with a cap and a displayed
  percentage, updated by `UpdateHealth` and `UpdateStamina`;
- a sprint flag with a matching walk-speed cap on the movement component,
  switched by `Sprint` and `StopSprinting`;
- a crouch stance flipped by `ToggleCrawling`;
- a per-frame `Tick` that regenerates or drains stamina and force-stops
  sprinting when stamina runs out.

Modules:

- `Resource` (resource.dfy): one bar as a value (`Gauge`), the engine clamp and
  `ApplyDelta`, the update policy shared by health and stamina, with lemmas on
  how updates compose, saturate and order.
- `Movement` (movement.dfy): the tuning fields with their declared defaults,
  the speed cap for a sprint flag, and the stamina rate charged by a tick.
- `CharacterModel` (character_model.dfy): the whole observable state as a
  value, the calls as an `Event`, their effect as `Step`, a sequence of calls
  as `Run`, and the properties of each call and of every reachable state.
- `Character` (character.dfy): the class `RotrCharacter` whose fields are the
  character's properties. Each method updates them in place, as the original
  does, and is proved to change the state exactly as `CharacterModel.Step`
  says of its call (for `Sprint`, `StopSprinting` and `ToggleCrawling`, which
  do not need positive caps, whenever the caps are positive; their record
  update is stated for every state).

The engine is reduced to plain values. The movement component is the two
fields `maxWalkSpeed` and `crouching`. Whether movement is in progress is a
`bool` argument of `Tick`. The frame time `deltaSeconds` is an argument. All
quantities are `real`.

Behaviour kept as the code has it:

- On death or exhaustion the value is left at the unclamped sum, possibly
  negative, and only the percentage is set to 0. A later update starts from
  that value, so after an overkill it takes more than the overkill to come
  back (`Resource.ApplyDeltaComposes`).
- `Tick` charges the sprint or run cost only when no movement is in
  progress. While movement is in progress, stamina only regenerates.
- `Sprint` does not look at stamina. So a character can sprint with an empty
  bar until the next tick that leaves stamina at or below zero. "Sprinting
  implies stamina > 0" holds only right after a tick
  (`CharacterModel.TickEndsSprintWithoutStamina`).
- The caps `maxHealth` and `maxStamina` are never validated. The updates divide
  by them, so the model requires both to be positive.

## Model

| member | source | states |
|---|---|---|
| `Resource.Clamp` | Source/ROTR/ROTRCharacter.cpp:63 | for lo <= hi the result lies in [lo, hi]; a value already in range is kept; a value above hi becomes hi |
| `Resource.FractionOfCap` | Source/ROTR/ROTRCharacter.cpp:64 | a positive value within a positive cap gives a percentage in (0, 1] |
| `Resource.ApplyDelta` | Source/ROTR/ROTRCharacter.cpp:56-78 | the update reports alive exactly when value + delta > 0; if not, the value is the unclamped sum and the percentage 0; if so, the value is min(value + delta, cap), lies in (0, cap], and the percentage is value / cap in (0, 1]; the cap is unchanged and the result is always Consistent |
| `Resource.ApplyDeltaComposes` | Source/ROTR/ROTRCharacter.cpp:58-63 | two updates equal one update by their sum whenever the first does not pass the cap, including after death, because the depleted value is not clamped |
| `Resource.ApplyDeltaSaturates` | Source/ROTR/ROTRCharacter.cpp:63 | after an update that reaches the cap, the bar behaves as a full one: the excess is lost |
| `Resource.ApplyDeltaMonotonic` | Source/ROTR/ROTRCharacter.cpp:56-66 | a larger delta never gives a lower value, a lower percentage, or death where a smaller delta survived |
| `Resource.ZeroDeltaIsIdentity` | Source/ROTR/ROTRCharacter.cpp:56-66 | a zero delta leaves a consistent bar unchanged and reports alive exactly when its value is positive |
| `Resource.OverkillExample` | Source/ROTR/ROTRCharacter.cpp:58-61 | a full bar of 100 hit for 150 reports death, keeps value -50 and shows 0 |
| `Movement.StaminaRate` | Source/ROTR/ROTRCharacter.cpp:150-156 | the per-second stamina change is the regen while movement is in progress; otherwise regen minus the sprint cost when sprinting, or minus the run cost when not |
| `Movement.DefaultRates` | Source/ROTR/ROTRCharacter.h:50-69 | with the declared tuning, a stationary tick changes stamina by -8 per second when sprinting and +1 when running; a moving tick gives +2 |
| `Movement.DefaultSpeedsOrdered` | Source/ROTR/ROTRCharacter.h:56-63 | the declared speeds are 600, 400 and 100, so sprint > run > walk, and the sprint cap exceeds the run cap |
| `Movement.RatesOrdered` | Source/ROTR/ROTRCharacter.cpp:150-156 | when 0 <= run cost <= sprint cost, a stationary sprint tick gains no more stamina than a stationary run tick, which gains no more than a moving tick |
| `CharacterModel.StopSprintingState` | Source/ROTR/ROTRCharacter.cpp:119-123 | stopping clears the sprint flag, sets the cap to the run speed and changes nothing else |
| `CharacterModel.Step` | Source/ROTR/ROTRCharacter.cpp:56-159 | every call keeps both caps positive and leaves the tuning and the caps unchanged |
| `CharacterModel.Run` | Source/ROTR/ROTRCharacter.cpp:56-159 | any sequence of calls keeps both caps positive and the tuning unchanged |
| `CharacterModel.InitialState` | Source/ROTR/ROTRCharacter.h:32-54 | a new character has health = max health = 100 and stamina = max stamina = 100, both percentages 1 = value / cap, is not sprinting, has the run speed as cap, and satisfies the invariant |
| `CharacterModel.UpdateHealthStep` | Source/ROTR/ROTRCharacter.cpp:56-66 | at or below zero, health keeps the unclamped sum and shows 0; above zero, health is min(sum, cap) in (0, cap] with percentage health / cap in (0, 1]; stamina, sprint flag, speed cap, stance and tuning are unchanged |
| `CharacterModel.UpdateStaminaStep` | Source/ROTR/ROTRCharacter.cpp:68-78 | the same two-branch policy for stamina; health, sprint flag, speed cap, stance and tuning are unchanged |
| `CharacterModel.SprintStep` | Source/ROTR/ROTRCharacter.cpp:113-117 | sprinting sets the flag and the sprint speed as cap whatever the stamina, changes nothing else, and is idempotent |
| `CharacterModel.StopSprintingStep` | Source/ROTR/ROTRCharacter.cpp:119-123 | stopping clears the flag and sets the run speed as cap, changes nothing else, and is idempotent |
| `CharacterModel.ToggleCrawlingStep` | Source/ROTR/ROTRCharacter.cpp:125-131 | the stance is negated, nothing else changes, and two toggles restore the original state |
| `CharacterModel.TickStep` | Source/ROTR/ROTRCharacter.cpp:148-159 | stamina becomes the update by rate * dt; on exhaustion sprinting is off and the cap is the run speed, otherwise flag and cap are kept; health, stance and tuning are unchanged; afterwards a sprinting character has stamina above zero |
| `CharacterModel.TickIsStaminaUpdateThenStop` | Source/ROTR/ROTRCharacter.cpp:157-158 | a tick is the stamina update it computes, followed by StopSprinting exactly when that update reports exhaustion |
| `CharacterModel.ExhaustionExample` | Source/ROTR/ROTRCharacter.cpp:148-159 | with 5 of 100 stamina, default tuning, sprinting and no movement in progress, a one-second tick leaves stamina at -3 and stops sprinting, with cap 400 |
| `CharacterModel.StepPreservesInvariant` | Source/ROTR/ROTRCharacter.cpp:56-159 | every one of the six modelled calls keeps the invariant: positive caps, speed cap matching the sprint flag, and both percentages consistent with their bars |
| `CharacterModel.RunPreservesInvariant` | Source/ROTR/ROTRCharacter.cpp:56-159 | any sequence of the six modelled calls keeps that invariant |
| `CharacterModel.ReachableInvariant` | Source/ROTR/ROTRCharacter.cpp:53 | every state reachable from a new character by the six modelled calls satisfies the invariant; in particular the cap is the sprint speed exactly while sprinting and the run speed otherwise |
| `CharacterModel.HealthOnlyChangesByUpdateHealth` | Source/ROTR/ROTRCharacter.cpp:68-159 | a sequence of calls without UpdateHealth leaves the health bar unchanged |
| `CharacterModel.TickEndsSprintWithoutStamina` | Source/ROTR/ROTRCharacter.cpp:157-158 | after any sequence of calls that ends with a tick, a sprinting character has stamina above zero |
| `Character.RotrCharacter.constructor` | Source/ROTR/ROTRCharacter.cpp:53 | the fields take their declared defaults and the speed cap is set to the run speed, which is the model's initial state |
| `Character.RotrCharacter.UpdateHealth` | Source/ROTR/ROTRCharacter.cpp:56-66 | returns alive exactly when old health + delta > 0; on death health is the unclamped sum and the percentage 0; otherwise health is min(sum, max health) in (0, max] and the percentage health / max in (0, 1]; stamina, sprint flag and speed cap are unchanged; the whole new state is Step of the old one |
| `Character.RotrCharacter.UpdateStamina` | Source/ROTR/ROTRCharacter.cpp:68-78 | the same contract for stamina; health, sprint flag and speed cap are unchanged |
| `Character.RotrCharacter.Sprint` | Source/ROTR/ROTRCharacter.cpp:113-117 | sets the sprint flag and the sprint speed as cap and changes nothing else; with positive caps the new state is Step of the old one |
| `Character.RotrCharacter.StopSprinting` | Source/ROTR/ROTRCharacter.cpp:119-123 | clears the sprint flag and sets the run speed as cap and changes nothing else; with positive caps the new state is Step of the old one |
| `Character.RotrCharacter.ToggleCrawling` | Source/ROTR/ROTRCharacter.cpp:125-131 | negates the crouch stance and changes nothing else; with positive caps the new state is Step of the old one |
| `Character.RotrCharacter.Tick` | Source/ROTR/ROTRCharacter.cpp:148-159 | builds the stamina delta from the movement mode, applies it through UpdateStamina and stops sprinting on exhaustion; the new state is Step of the old one for this tick |

## Left out

- Camera rig and movement tuning in the constructor (capsule size, spring arm,
  follow camera, rotation rate, jump velocity, air control, tick group): engine
  configuration with no logic of the character's own.
- `BaseTurnRate` and `BaseLookUpRate`: used only by the turn-rate handlers,
  which are not modelled.
- `SetupPlayerInputComponent`: a table of bindings in the engine's input
  system. That `Sprint` and `StopSprinting` are bound to press and release of
  one key, and `ToggleCrawling` to a release, is not modelled; any order of calls is.
- `MoveForward`, `MoveRight`, `TurnAtRate`, `LookUpAtRate`: vector and rotation
  arithmetic forwarded to engine primitives.
- `OnResetVR`, `TouchStarted`, `TouchStopped`: single calls into the engine and
  head-mounted-display libraries.
- The HUD actor (GameHUD.cpp) and the game mode (ROTRGameMode.cpp): asset
  lookup by path and widget creation, both foreign engine APIs.
- `IsMovementInProgress`: an engine query, passed to `Tick` as a parameter.
- `Character.RotrCharacter.ToggleCrawling`: the engine's `Crouch` and `UnCrouch`
  may refuse or defer the change (for instance when there is no room to stand);
  the model flips the stance unconditionally.
- Single-precision floating point: all quantities are exact reals, so rounding,
  infinities and NaN are not modelled. With a zero cap and a positive result,
  the original clamps the value to 0, computes the percentage 0 / 0 = NaN and
  reports alive; the model requires positive caps instead.
- Writes to the character's editable properties from outside its own
  operations: the tuning fields, the caps, `IsSprinting` (editable and
  writable from blueprints) and the movement component's `MaxWalkSpeed`. Such a
  write can, for instance, give a sprinting character the run-speed cap.
  `CharacterModel.Invariant`, `CharacterModel.RunPreservesInvariant` and
  `CharacterModel.ReachableInvariant` therefore cover only sequences of the six
  modelled calls (`UpdateHealth`, `UpdateStamina`, `Sprint`, `StopSprinting`,
  `ToggleCrawling`, `Tick`).
