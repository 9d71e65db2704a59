/** The character's observable state as a value, and what each of its
    operations does to it. The class in module Character keeps this state in
    fields and each of its methods is proved to move it by Step. */
module CharacterModel {
  import opened Resource
  import opened Movement

  /** Health and stamina bars, the sprint flag, the two properties of the
      movement component the character touches (speed cap and crouch
      stance), and the tuning. */
  datatype State = State(
    health: Gauge,
    stamina: Gauge,
    isSprinting: bool,
    maxWalkSpeed: real,
    crouching: bool,
    tuning: Tuning)

  /** The character's own operations, as the engine and the game call them.
      Writes to its editable properties from outside (the sprint flag, the
      caps, the tuning, the movement component's speed cap) are not events. */
  datatype Event =
    | UpdateHealth(delta: real)
    | UpdateStamina(delta: real)
    | Sprint
    | StopSprinting
    | ToggleCrawling
    | Tick(movementInProgress: bool, deltaSeconds: real)

  /** Both caps positive: the bar updates divide by them. */
  predicate WellFormed(s: State)
  {
    s.health.maximum > 0.0 && s.stamina.maximum > 0.0
  }

  /** The speed cap is the one that belongs with the sprint flag. */
  predicate SpeedMatches(s: State)
  {
    s.maxWalkSpeed == SpeedCap(s.tuning, s.isSprinting)
  }

  /** What holds of every state the character can reach. */
  predicate Invariant(s: State)
  {
    WellFormed(s) && SpeedMatches(s) && Consistent(s.health) && Consistent(s.stamina)
  }

  /** A freshly constructed character: full bars, not sprinting, standing,
      the run speed as cap and the declared default tuning. */
  const Initial: State :=
    State(Gauge(100.0, 100.0, 1.0), Gauge(100.0, 100.0, 1.0), false, Defaults.runSpeed, false, Defaults)

  /** Stop sprinting: clear the flag and restore the run speed. */
  function StopSprintingState(s: State): (r: State)
    ensures !r.isSprinting && r.maxWalkSpeed == s.tuning.runSpeed
    ensures r.(isSprinting := s.isSprinting, maxWalkSpeed := s.maxWalkSpeed) == s
  {
    s.(isSprinting := false, maxWalkSpeed := s.tuning.runSpeed)
  }

  /** The effect of one call on the character. */
  function Step(s: State, e: Event): (r: State)
    requires WellFormed(s)
    ensures WellFormed(r)
    ensures r.tuning == s.tuning
    ensures r.health.maximum == s.health.maximum && r.stamina.maximum == s.stamina.maximum
  {
    match e
    case UpdateHealth(d) => s.(health := ApplyDelta(s.health, d).gauge)
    case UpdateStamina(d) => s.(stamina := ApplyDelta(s.stamina, d).gauge)
    case Sprint => s.(isSprinting := true, maxWalkSpeed := s.tuning.sprintSpeed)
    case StopSprinting => StopSprintingState(s)
    case ToggleCrawling => s.(crouching := !s.crouching)
    case Tick(moving, dt) =>
      var o := ApplyDelta(s.stamina, StaminaRate(s.tuning, moving, s.isSprinting) * dt);
      var s1 := s.(stamina := o.gauge);
      if o.alive then s1 else StopSprintingState(s1)
  }

  /** The effect of a sequence of calls, in order. */
  function Run(s: State, es: seq<Event>): (r: State)
    requires WellFormed(s)
    ensures WellFormed(r)
    ensures r.tuning == s.tuning
    decreases |es|
  {
    if es == [] then s else Run(Step(s, es[0]), es[1..])
  }

  // ----- Construction -----

  /** Full bars whose percentages agree with them, no sprint, run speed as cap. */
  lemma InitialState()
    ensures Initial.health.value == Initial.health.maximum == 100.0
    ensures Initial.health.percentage == 1.0 == Initial.health.value / Initial.health.maximum
    ensures Initial.stamina.value == Initial.stamina.maximum == 100.0
    ensures Initial.stamina.percentage == 1.0 == Initial.stamina.value / Initial.stamina.maximum
    ensures !Initial.isSprinting && Initial.maxWalkSpeed == Initial.tuning.runSpeed
    ensures Invariant(Initial)
  {
  }

  // ----- One call at a time -----

  /** UpdateHealth: death at or below zero leaves the value unclamped and shows
      0; otherwise the value is capped and the percentage recomputed. Nothing
      but the health bar changes. */
  lemma UpdateHealthStep(s: State, d: real)
    requires WellFormed(s)
    ensures var r := Step(s, UpdateHealth(d));
      && (s.health.value + d <= 0.0 ==>
            r.health.value == s.health.value + d && r.health.percentage == 0.0)
      && (s.health.value + d > 0.0 ==>
            && r.health.value == Min(s.health.value + d, s.health.maximum)
            && 0.0 < r.health.value <= r.health.maximum
            && r.health.percentage == r.health.value / r.health.maximum
            && 0.0 < r.health.percentage <= 1.0)
      && r.health.maximum == s.health.maximum
      && r.(health := s.health) == s
  {
  }

  /** UpdateStamina: the same policy for the stamina bar; nothing else changes. */
  lemma UpdateStaminaStep(s: State, d: real)
    requires WellFormed(s)
    ensures var r := Step(s, UpdateStamina(d));
      && (s.stamina.value + d <= 0.0 ==>
            r.stamina.value == s.stamina.value + d && r.stamina.percentage == 0.0)
      && (s.stamina.value + d > 0.0 ==>
            && r.stamina.value == Min(s.stamina.value + d, s.stamina.maximum)
            && 0.0 < r.stamina.value <= r.stamina.maximum
            && r.stamina.percentage == r.stamina.value / r.stamina.maximum
            && 0.0 < r.stamina.percentage <= 1.0)
      && r.stamina.maximum == s.stamina.maximum
      && r.(stamina := s.stamina) == s
  {
  }

  /** Sprint raises the cap to the sprint speed whatever the stamina, and
      doing it twice is doing it once. */
  lemma SprintStep(s: State)
    requires WellFormed(s)
    ensures var r := Step(s, Sprint);
      && r.isSprinting && r.maxWalkSpeed == s.tuning.sprintSpeed
      && r.(isSprinting := s.isSprinting, maxWalkSpeed := s.maxWalkSpeed) == s
      && Step(r, Sprint) == r
  {
  }

  /** StopSprinting restores the run speed, and doing it twice is doing it once. */
  lemma StopSprintingStep(s: State)
    requires WellFormed(s)
    ensures var r := Step(s, StopSprinting);
      && !r.isSprinting && r.maxWalkSpeed == s.tuning.runSpeed
      && r.(isSprinting := s.isSprinting, maxWalkSpeed := s.maxWalkSpeed) == s
      && Step(r, StopSprinting) == r
  {
  }

  /** ToggleCrawling flips the stance and nothing else; twice restores it. */
  lemma ToggleCrawlingStep(s: State)
    requires WellFormed(s)
    ensures var r := Step(s, ToggleCrawling);
      && r.crouching == !s.crouching
      && r.(crouching := s.crouching) == s
      && Step(r, ToggleCrawling) == s
  {
  }

  /** Tick applies (regen - cost) * dt to stamina; if that exhausts it, sprinting
      is forced off and the run speed restored, otherwise the sprint flag and
      the cap are kept. Health and stance are untouched, and afterwards a
      sprinting character always has stamina left. */
  lemma TickStep(s: State, moving: bool, dt: real)
    requires WellFormed(s)
    ensures var o := ApplyDelta(s.stamina, StaminaRate(s.tuning, moving, s.isSprinting) * dt);
      var r := Step(s, Tick(moving, dt));
      && r.stamina == o.gauge
      && (!o.alive ==> !r.isSprinting && r.maxWalkSpeed == s.tuning.runSpeed)
      && (o.alive ==> r.isSprinting == s.isSprinting && r.maxWalkSpeed == s.maxWalkSpeed)
      && r.health == s.health && r.crouching == s.crouching && r.tuning == s.tuning
      && (r.isSprinting ==> r.stamina.value > 0.0)
  {
    var d := StaminaRate(s.tuning, moving, s.isSprinting) * dt;
    TickIsStaminaUpdateThenStop(s, moving, dt, d);
  }

  /** A tick is the stamina update it computes, followed by StopSprinting
      exactly when that update reports exhaustion. */
  lemma TickIsStaminaUpdateThenStop(s: State, moving: bool, dt: real, d: real)
    requires WellFormed(s)
    requires d == StaminaRate(s.tuning, moving, s.isSprinting) * dt
    ensures s.stamina.value + d > 0.0 ==> Step(s, Tick(moving, dt)) == Step(s, UpdateStamina(d))
    ensures s.stamina.value + d <= 0.0 ==> Step(s, Tick(moving, dt)) == StopSprintingState(Step(s, UpdateStamina(d)))
  {
  }

  /** With 5 of 100 stamina, default tuning and no movement in progress, one
      second of sprinting costs 8: stamina drops to -3 and sprinting stops in
      the same tick. */
  lemma ExhaustionExample()
    ensures var s := State(Gauge(100.0, 100.0, 1.0), Gauge(5.0, 100.0, 0.05), true, 600.0, false, Defaults);
      var r := Step(s, Tick(false, 1.0));
      && r.stamina == Gauge(-3.0, 100.0, 0.0)
      && !r.isSprinting && r.maxWalkSpeed == 400.0
  {
  }

  // ----- Sequences of calls -----

  /** Every call keeps the invariant. */
  lemma StepPreservesInvariant(s: State, e: Event)
    requires Invariant(s)
    ensures Invariant(Step(s, e))
  {
  }

  /** Any sequence of calls keeps the invariant. */
  lemma {:induction false} RunPreservesInvariant(s: State, es: seq<Event>)
    requires Invariant(s)
    ensures Invariant(Run(s, es))
    decreases |es|
  {
    if es != [] {
      StepPreservesInvariant(s, es[0]);
      RunPreservesInvariant(Step(s, es[0]), es[1..]);
    }
  }

  /** Every state reachable from construction by the character's own calls
      satisfies the invariant: in particular the speed cap always matches the
      sprint flag and both percentages agree with their bars. */
  lemma ReachableInvariant(es: seq<Event>)
    ensures Invariant(Run(Initial, es))
  {
    InitialState();
    RunPreservesInvariant(Initial, es);
  }

  /** Only UpdateHealth changes health: ticks, sprinting, crawling and stamina
      updates leave the health bar as it was. */
  lemma {:induction false} HealthOnlyChangesByUpdateHealth(s: State, es: seq<Event>)
    requires WellFormed(s)
    requires forall i :: 0 <= i < |es| ==> !es[i].UpdateHealth?
    ensures Run(s, es).health == s.health
    decreases |es|
  {
    if es != [] {
      HealthOnlyChangesByUpdateHealth(Step(s, es[0]), es[1..]);
    }
  }

  /** Right after a tick, a sprinting character has stamina left. Sprint itself
      does not look at stamina, so between ticks a character can sprint on an
      empty bar; the next tick that leaves stamina at or below zero stops it. */
  lemma {:induction false} TickEndsSprintWithoutStamina(s: State, es: seq<Event>)
    requires WellFormed(s)
    requires es != [] && es[|es| - 1].Tick?
    ensures Run(s, es).isSprinting ==> Run(s, es).stamina.value > 0.0
    decreases |es|
  {
    if |es| == 1 {
      TickStep(s, es[0].movementInProgress, es[0].deltaSeconds);
    } else {
      TickEndsSprintWithoutStamina(Step(s, es[0]), es[1..]);
    }
  }
}
