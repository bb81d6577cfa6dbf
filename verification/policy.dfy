/**
 The announcement policy: given one frame's label list and the state carried
 from earlier frames, decide whether to speak the dominant label and how the
 state changes.

 Time is a parameter: `now` is the clock read when the guard is evaluated,
 `tUpdate` the clock read after the (blocking) speech has finished.
 */
module Policy {
  import opened Wrappers
  import opened Labels

  /** Seconds that must pass before the same label is spoken again. */
  const DefaultCooldown: real := 3.0

  /** The only state kept across frames: what was spoken last, and when. */
  datatype AnnouncerState = AnnouncerState(lastSpoken: Label, lastTime: real)

  /** The state a detection session starts from: nothing spoken, clock at `start`. */
  function Initial(start: real): AnnouncerState
  {
    AnnouncerState("", start)
  }

  /** What one step speaks (at most one label) and the state it leaves behind. */
  datatype StepResult = StepResult(spoken: Option<Label>, next: AnnouncerState)

  /** The guard: a different label, or the cooldown strictly exceeded. */
  predicate Announces(s: AnnouncerState, dominant: Label, now: real, cooldown: real)
  {
    dominant != s.lastSpoken || now - s.lastTime > cooldown
  }

  /** One frame of the continuous loop: announce the dominant label when the guard allows. */
  function Step(s: AnnouncerState, names: seq<Label>, now: real, tUpdate: real, cooldown: real): (r: StepResult)
    ensures names == [] ==> r.spoken == None && r.next == s
    ensures r.spoken.Some? ==> IsMode(names, r.spoken.value) && r.next == AnnouncerState(r.spoken.value, tUpdate)
    ensures r.spoken.None? ==> r.next == s
    ensures names != [] ==> (r.spoken.Some? <==> Announces(s, Mode(names), now, cooldown))
    ensures r.spoken.Some? ==> r.spoken.value == Mode(names)
  {
    if names == [] then StepResult(None, s)
    else
      var dominant := Mode(names);
      if Announces(s, dominant, now, cooldown) then
        StepResult(Some(dominant), AnnouncerState(dominant, tUpdate))
      else
        StepResult(None, s)
  }

  /** A dominant label other than the last spoken one is announced whatever the elapsed time. */
  lemma NewLabelAlwaysAnnounced(s: AnnouncerState, names: seq<Label>, now: real, tUpdate: real, cooldown: real)
    requires names != []
    requires Mode(names) != s.lastSpoken
    ensures Step(s, names, now, tUpdate, cooldown) == StepResult(Some(Mode(names)), AnnouncerState(Mode(names), tUpdate))
  {
  }

  /**
   Repeating the last spoken label needs strictly more than `cooldown` seconds;
   at exactly `cooldown` seconds the step stays silent.
   */
  lemma RepeatNeedsCooldown(s: AnnouncerState, names: seq<Label>, now: real, tUpdate: real, cooldown: real)
    requires names != []
    requires Mode(names) == s.lastSpoken
    ensures Step(s, names, now, tUpdate, cooldown).spoken.Some? <==> now - s.lastTime > cooldown
    ensures now - s.lastTime == cooldown ==> Step(s, names, now, tUpdate, cooldown) == StepResult(None, s)
  {
  }

  /**
   After a batch has been announced, the same batch seen again within the
   cooldown (measured from the end of the speech) is not announced, and once
   the cooldown has passed it is announced again with the clock refreshed.
   */
  lemma SameBatchAfterAnnouncement(s: AnnouncerState, names: seq<Label>, now: real, tUpdate: real,
                                   later: real, laterUpdate: real, cooldown: real)
    requires Step(s, names, now, tUpdate, cooldown).spoken.Some?
    ensures var r := Step(Step(s, names, now, tUpdate, cooldown).next, names, later, laterUpdate, cooldown);
      && (later - tUpdate <= cooldown ==> r.spoken.None?)
      && (later - tUpdate > cooldown ==> r == StepResult(Some(Mode(names)), AnnouncerState(Mode(names), laterUpdate)))
  {
  }

  /**
   From the initial state, the first non-empty batch is always announced,
   provided no detected label is the empty string.
   */
  lemma FirstBatchAnnounced(start: real, names: seq<Label>, now: real, tUpdate: real, cooldown: real)
    requires names != []
    requires "" !in names
    ensures Step(Initial(start), names, now, tUpdate, cooldown).spoken == Some(Mode(names))
  {
  }

  /**
   Image mode: no state and no cooldown; a non-empty batch yields one
   announcement of a dominant label, an empty batch yields none.
   */
  function ImageAnnouncement(names: seq<Label>): (r: Option<Label>)
    ensures r.Some? <==> names != []
    ensures r.Some? ==> IsMode(names, r.value)
  {
    if names == [] then None else Some(Mode(names))
  }

  /**
   Image mode agrees with a single step of the continuous policy taken from a
   fresh state at the moment the session starts.
   */
  lemma ImageIsFreshStep(names: seq<Label>, start: real, tUpdate: real, cooldown: real)
    requires "" !in names
    ensures ImageAnnouncement(names) == Step(Initial(start), names, start, tUpdate, cooldown).spoken
  {
  }
}
