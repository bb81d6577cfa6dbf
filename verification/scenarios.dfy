/**
 Worked decisions of the announcement policy with the source's 3-second
 cooldown, one frame each.
 */
module Scenarios {
  import opened Wrappers
  import opened Policy

  /** A single "dog" seen from the initial state at time 1 is announced and remembered. */
  lemma FreshDogAnnounced()
    ensures Step(Initial(0.0), ["dog"], 1.0, 1.0, DefaultCooldown)
         == StepResult(Some("dog"), AnnouncerState("dog", 1.0))
  {
  }

  /** Two dogs and a cat one second after "dog" was spoken: dog dominates, and it stays silent. */
  lemma DogRepeatWithinCooldownSilent()
    ensures Step(AnnouncerState("dog", 1.0), ["dog", "dog", "cat"], 2.0, 2.0, DefaultCooldown)
         == StepResult(None, AnnouncerState("dog", 1.0))
  {
  }

  /** The same batch four seconds after "dog" was spoken: the cooldown has passed, so dog is spoken again. */
  lemma DogRepeatAfterCooldownAnnounced()
    ensures Step(AnnouncerState("dog", 1.0), ["dog", "dog", "cat"], 5.0, 5.0, DefaultCooldown)
         == StepResult(Some("dog"), AnnouncerState("dog", 5.0))
  {
  }

  /** Exactly three seconds after "dog" was spoken is not yet past the cooldown. */
  lemma DogRepeatAtCooldownSilent()
    ensures Step(AnnouncerState("dog", 1.0), ["dog"], 4.0, 4.0, DefaultCooldown)
         == StepResult(None, AnnouncerState("dog", 1.0))
  {
  }
}
