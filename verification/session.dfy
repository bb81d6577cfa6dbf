/**
 The detection session: the continuous loop that reads frames, collects
 their labels, runs the policy step, and stops at the first failed read,
 ESC key press or unknown class index; and the single-image session.

 Camera reads, key presses and clock readings are inputs: each frame records
 whether the read succeeded, the detector's results, the two clock readings
 of the policy step and whether ESC was pressed after it was displayed.
 */
module Session {
  import opened Wrappers
  import opened Labels
  import opened Policy

  /** One iteration's inputs. */
  datatype Frame =
    | FailedRead
    | Captured(results: seq<DetectionResult>, now: real, tUpdate: real, escPressed: bool)

  /** What the loop sees of a frame once its labels are collected. */
  datatype Observation =
    | NoFrame
    | UnknownClassSeen(cls: int)
    | Labelled(names: seq<Label>, now: real, tUpdate: real, escPressed: bool)

  /** Collects the labels of one frame. */
  function Observe(vocab: Vocabulary, f: Frame): (o: Observation)
    ensures o.NoFrame? <==> f.FailedRead?
    ensures f.Captured? ==> (o.Labelled? <==> AllKnown(vocab, AllBoxes(f.results)))
    ensures o.UnknownClassSeen? ==> f.Captured? && FirstUnknown(vocab, AllBoxes(f.results), o.cls)
    ensures o.Labelled? ==> && f.Captured? && LabelsFor(vocab, AllBoxes(f.results), o.names)
                            && o.now == f.now && o.tUpdate == f.tUpdate && o.escPressed == f.escPressed
  {
    match f
    case FailedRead => NoFrame
    case Captured(results, now, tUpdate, esc) =>
      match CollectLabels(vocab, results)
      case Failure(c) => UnknownClassSeen(c)
      case Success(names) => Labelled(names, now, tUpdate, esc)
  }

  /** Why the loop ended. `InputExhausted` only means the modelled input ran out. */
  datatype StopReason = ReadFailed | EscPressed | UnknownClass(cls: int) | InputExhausted

  /** One spoken label, with the clock at the decision and after the speech. */
  datatype Announcement = Announcement(text: Label, decidedAt: real, finishedAt: real)

  /** What a run produced: the speech trace, the final state, why it stopped, and how many frames it took. */
  datatype Trace = Trace(spoken: seq<Announcement>, final: AnnouncerState, stop: StopReason, consumed: nat)

  /** The reason processing `o` ends the loop, or `None` when the loop goes on after it. */
  function Halt(o: Observation): Option<StopReason>
  {
    match o
    case NoFrame => Some(ReadFailed)
    case UnknownClassSeen(c) => Some(UnknownClass(c))
    case Labelled(_, _, _, esc) => if esc then Some(EscPressed) else None
  }

  /** What one iteration of the loop produced. */
  datatype Iteration = Iteration(out: seq<Announcement>, next: AnnouncerState)

  /**
   One iteration: a failed read or an unknown class index produces nothing;
   otherwise the policy step runs on the frame's labels (also on the frame
   after which ESC is pressed).
   */
  function Iterate(s: AnnouncerState, o: Observation, cooldown: real): (r: Iteration)
    ensures |r.out| <= 1
    ensures r.out == [] ==> r.next == s
    ensures r.out != [] ==> && o.Labelled? && r.out[0].text in o.names
                            && r.out[0].decidedAt == o.now && r.out[0].finishedAt == o.tUpdate
                            && r.next == AnnouncerState(r.out[0].text, r.out[0].finishedAt)
    ensures r.out != [] && r.out[0].text == s.lastSpoken ==> r.out[0].decidedAt - s.lastTime > cooldown
    ensures r.out != [] ==> IsMode(o.names, r.out[0].text) && r.out[0].text == Mode(o.names)
    ensures o.Labelled? && o.names != [] ==> (r.out != [] <==> Announces(s, Mode(o.names), o.now, cooldown))
  {
    match o
    case Labelled(names, now, tUpdate, _) =>
      var st := Step(s, names, now, tUpdate, cooldown);
      if st.spoken.Some? then Iteration([Announcement(st.spoken.value, now, tUpdate)], st.next)
      else Iteration([], st.next)
    case _ => Iteration([], s)
  }

  /** The continuous loop, folded over what it observes of each frame. */
  function Run(s: AnnouncerState, obs: seq<Observation>, cooldown: real): (r: Trace)
    ensures r.consumed <= |obs|
    ensures r.stop == InputExhausted <==> r.consumed == |obs| && (obs == [] || Halt(obs[|obs| - 1]).None?)
    ensures |r.spoken| <= r.consumed
    decreases |obs|
  {
    if obs == [] then Trace([], s, InputExhausted, 0)
    else
      var it := Iterate(s, obs[0], cooldown);
      match Halt(obs[0])
      case Some(reason) => Trace(it.out, it.next, reason, 1)
      case None =>
        var rest := Run(it.next, obs[1..], cooldown);
        Trace(it.out + rest.spoken, rest.final, rest.stop, 1 + rest.consumed)
  }

  /** What the loop observes of each frame, in order. */
  function ObserveAll(vocab: Vocabulary, frames: seq<Frame>): seq<Observation>
  {
    seq(|frames|, i requires 0 <= i < |frames| => Observe(vocab, frames[i]))
  }

  /** A webcam session: the loop from the initial state with the source's cooldown. */
  function Webcam(vocab: Vocabulary, start: real, frames: seq<Frame>): Trace
  {
    Run(Initial(start), ObserveAll(vocab, frames), DefaultCooldown)
  }

  /** None of the first `n` observations halts the loop. */
  ghost predicate PassesFirst(obs: seq<Observation>, n: int)
  {
    forall i :: 0 <= i < |obs| && i < n ==> Halt(obs[i]).None?
  }

  /** Every observation before the last one the loop consumed let the loop go on. */
  lemma {:induction false} RunPassesEarlierFrames(s: AnnouncerState, obs: seq<Observation>, cooldown: real)
    ensures PassesFirst(obs, Run(s, obs, cooldown).consumed - 1)
    decreases |obs|
  {
    if obs != [] && Halt(obs[0]).None? {
      var it := Iterate(s, obs[0], cooldown);
      RunPassesEarlierFrames(it.next, obs[1..], cooldown);
      var n := Run(it.next, obs[1..], cooldown).consumed;
      forall i | 0 <= i < |obs| && i < n ensures Halt(obs[i]).None? {
        if i > 0 { assert obs[i] == obs[1..][i - 1]; }
      }
    }
  }

  /**
   A loop that stopped for a reason other than running out of input stopped
   at its last consumed observation, for the reason that observation gives.
   */
  lemma {:induction false} RunStopsWhereHalted(s: AnnouncerState, obs: seq<Observation>, cooldown: real)
    ensures Run(s, obs, cooldown).stop != InputExhausted ==>
      && 0 < Run(s, obs, cooldown).consumed
      && Halt(obs[Run(s, obs, cooldown).consumed - 1]) == Some(Run(s, obs, cooldown).stop)
    decreases |obs|
  {
    if obs != [] && Halt(obs[0]).None? {
      var it := Iterate(s, obs[0], cooldown);
      RunStopsWhereHalted(it.next, obs[1..], cooldown);
      var rest := Run(it.next, obs[1..], cooldown);
      if rest.stop != InputExhausted {
        assert obs[rest.consumed] == obs[1..][rest.consumed - 1];
      }
    }
  }

  /**
   The loop stops exactly at the first frame that halts it, for the reason
   that frame gives; it runs out of input only when no frame halts it.
   */
  lemma RunStopsAtFirstHalt(s: AnnouncerState, obs: seq<Observation>, cooldown: real)
    ensures PassesFirst(obs, Run(s, obs, cooldown).consumed - 1)
    ensures Run(s, obs, cooldown).stop == InputExhausted <==> PassesFirst(obs, |obs|)
    ensures Run(s, obs, cooldown).stop != InputExhausted ==>
      && 0 < Run(s, obs, cooldown).consumed
      && Halt(obs[Run(s, obs, cooldown).consumed - 1]) == Some(Run(s, obs, cooldown).stop)
  {
    RunPassesEarlierFrames(s, obs, cooldown);
    RunStopsWhereHalted(s, obs, cooldown);
    var r := Run(s, obs, cooldown);
    if r.stop == InputExhausted {
      assert forall i :: 0 <= i < |obs| - 1 ==> Halt(obs[i]).None?;
    } else {
      assert Halt(obs[r.consumed - 1]).Some?;
    }
  }

  /**
   Frames after one that halts the loop are never processed: the run over
   all frames is the run over the frames up to and including that one.
   */
  lemma {:induction false} RunIgnoresLaterFrames(s: AnnouncerState, obs: seq<Observation>, k: nat, cooldown: real)
    requires k < |obs| && Halt(obs[k]).Some?
    ensures Run(s, obs, cooldown) == Run(s, obs[..k + 1], cooldown)
    decreases k
  {
    assert obs[..k + 1][0] == obs[0];
    if Halt(obs[0]).None? {
      var it := Iterate(s, obs[0], cooldown);
      assert obs[..k + 1][1..] == obs[1..][..k];
      RunIgnoresLaterFrames(it.next, obs[1..], k - 1, cooldown);
    }
  }

  /** The state a sequence of announcements leaves behind, starting from `s`. */
  function Remembered(s: AnnouncerState, spoken: seq<Announcement>): AnnouncerState
  {
    if spoken == [] then s
    else AnnouncerState(spoken[|spoken| - 1].text, spoken[|spoken| - 1].finishedAt)
  }

  /**
   Throughout a run, the state remembers the most recent announcement: its
   label and the clock read after it; with no announcement it is unchanged.
   */
  lemma {:induction false} RunFinalState(s: AnnouncerState, obs: seq<Observation>, cooldown: real)
    ensures Run(s, obs, cooldown).final == Remembered(s, Run(s, obs, cooldown).spoken)
    decreases |obs|
  {
    if obs != [] && Halt(obs[0]).None? {
      var it := Iterate(s, obs[0], cooldown);
      RunFinalState(it.next, obs[1..], cooldown);
    }
  }

  /** Every label the loop observes belongs to `labels`. */
  ghost predicate ObservedWithin(obs: seq<Observation>, labels: set<Label>)
  {
    forall i :: 0 <= i < |obs| && obs[i].Labelled? ==> forall l :: l in obs[i].names ==> l in labels
  }

  /** Every spoken label is one the loop observed. */
  lemma {:induction false} RunSpeaksObserved(s: AnnouncerState, obs: seq<Observation>, cooldown: real, labels: set<Label>)
    requires ObservedWithin(obs, labels)
    ensures forall a :: a in Run(s, obs, cooldown).spoken ==> a.text in labels
    decreases |obs|
  {
    if obs != [] {
      var it := Iterate(s, obs[0], cooldown);
      if Halt(obs[0]).None? {
        assert ObservedWithin(obs[1..], labels) by {
          forall i | 0 <= i < |obs[1..]| ensures obs[1..][i] == obs[i + 1] { }
        }
        RunSpeaksObserved(it.next, obs[1..], cooldown, labels);
      }
    }
  }

  /** Every label the webcam session speaks is one of the vocabulary's class names. */
  lemma WebcamSpeaksVocabulary(vocab: Vocabulary, start: real, frames: seq<Frame>)
    ensures forall a :: a in Webcam(vocab, start, frames).spoken ==> a.text in vocab.Values
  {
    var obs := ObserveAll(vocab, frames);
    forall i, l | 0 <= i < |obs| && obs[i].Labelled? && l in obs[i].names ensures l in vocab.Values {
      var j :| 0 <= j < |obs[i].names| && obs[i].names[j] == l;
      assert vocab[AllBoxes(frames[i].results)[j].cls] == l;
    }
    RunSpeaksObserved(Initial(start), obs, DefaultCooldown, vocab.Values);
  }

  /**
   Consecutive announcements of the same label are more than `cooldown`
   apart, measured from the end of the first speech to the decision on the
   second.
   */
  ghost predicate RepeatsSpaced(spoken: seq<Announcement>, cooldown: real)
  {
    forall i :: 0 <= i < |spoken| - 1 && spoken[i].text == spoken[i + 1].text ==>
      spoken[i + 1].decidedAt - spoken[i].finishedAt > cooldown
  }

  /** A first announcement repeating the label `s` remembers comes more than `cooldown` after `s`'s time. */
  ghost predicate SpacedFrom(s: AnnouncerState, spoken: seq<Announcement>, cooldown: real)
  {
    spoken != [] && spoken[0].text == s.lastSpoken ==> spoken[0].decidedAt - s.lastTime > cooldown
  }

  /**
   Repeats stay spaced across a concatenation when the second part is spaced
   from the state the first part leaves behind.
   */
  lemma RepeatsSpacedAppend(next: AnnouncerState, a: seq<Announcement>, b: seq<Announcement>, cooldown: real)
    requires |a| <= 1
    requires a != [] ==> next == AnnouncerState(a[0].text, a[0].finishedAt)
    requires RepeatsSpaced(b, cooldown) && SpacedFrom(next, b, cooldown)
    ensures RepeatsSpaced(a + b, cooldown)
  {
  }

  /**
   Every run keeps repeats spaced, including a repeat of the label the
   starting state remembers. No assumption on the clock is needed.
   */
  lemma {:induction false} RunRepeatsSpaced(s: AnnouncerState, obs: seq<Observation>, cooldown: real)
    ensures RepeatsSpaced(Run(s, obs, cooldown).spoken, cooldown)
    ensures SpacedFrom(s, Run(s, obs, cooldown).spoken, cooldown)
    decreases |obs|
  {
    if obs != [] {
      var it := Iterate(s, obs[0], cooldown);
      if Halt(obs[0]).None? {
        RunRepeatsSpaced(it.next, obs[1..], cooldown);
        RepeatsSpacedAppend(it.next, it.out, Run(it.next, obs[1..], cooldown).spoken, cooldown);
      }
    }
  }

  /**
   Clock readings ordered along the run, starting no earlier than `t`: each
   decision is read no earlier than the previous speech ended, and each
   speech ends no earlier than its decision.
   */
  ghost predicate ClockOrdered(t: real, obs: seq<Observation>)
    decreases |obs|
  {
    obs != [] ==>
      match obs[0]
      case Labelled(_, now, tUpdate, _) => t <= now <= tUpdate && ClockOrdered(tUpdate, obs[1..])
      case _ => ClockOrdered(t, obs[1..])
  }

  /** Clock order from a later reading implies clock order from any earlier one. */
  lemma {:induction false} ClockFromEarlier(t: real, t1: real, obs: seq<Observation>)
    requires t1 <= t
    requires ClockOrdered(t, obs)
    ensures ClockOrdered(t1, obs)
    decreases |obs|
  {
    if obs != [] && !obs[0].Labelled? {
      ClockFromEarlier(t, t1, obs[1..]);
    }
  }

  /** Every announcement is decided no earlier than `t` and ends no earlier than it is decided. */
  ghost predicate WithinClock(t: real, spoken: seq<Announcement>)
  {
    forall i :: 0 <= i < |spoken| ==> t <= spoken[i].decidedAt <= spoken[i].finishedAt
  }

  /** Every announcement is decided no earlier than the previous one ended. */
  ghost predicate Sequential(spoken: seq<Announcement>)
  {
    forall i :: 0 <= i < |spoken| - 1 ==> spoken[i].finishedAt <= spoken[i + 1].decidedAt
  }

  /** After one iteration the clock order continues from the state's remembered time. */
  lemma IterateKeepsClockOrder(s: AnnouncerState, obs: seq<Observation>, cooldown: real)
    requires obs != []
    requires ClockOrdered(s.lastTime, obs)
    ensures s.lastTime <= Iterate(s, obs[0], cooldown).next.lastTime
    ensures ClockOrdered(Iterate(s, obs[0], cooldown).next.lastTime, obs[1..])
    ensures WithinClock(s.lastTime, Iterate(s, obs[0], cooldown).out)
  {
    var it := Iterate(s, obs[0], cooldown);
    match obs[0]
    case Labelled(_, now, tUpdate, _) =>
      ClockFromEarlier(tUpdate, it.next.lastTime, obs[1..]);
    case _ =>
  }

  /** `WithinClock` holds of a concatenation when it holds of both parts, the second from a later time. */
  lemma WithinClockAppend(t: real, t1: real, a: seq<Announcement>, b: seq<Announcement>)
    requires t <= t1
    requires WithinClock(t, a) && WithinClock(t1, b)
    ensures WithinClock(t, a + b)
  {
  }

  /**
   `Sequential` holds of a concatenation of two sequential parts when the
   first part ends by `t` and the second starts from `t`.
   */
  lemma SequentialAppend(t: real, a: seq<Announcement>, b: seq<Announcement>)
    requires Sequential(a) && Sequential(b) && WithinClock(t, b)
    requires a != [] ==> a[|a| - 1].finishedAt <= t
    ensures Sequential(a + b)
  {
  }

  /** With ordered clock readings, each announcement lies after the start and ends after its decision. */
  lemma {:induction false} RunAnnouncementsInClock(s: AnnouncerState, obs: seq<Observation>, cooldown: real)
    requires ClockOrdered(s.lastTime, obs)
    ensures WithinClock(s.lastTime, Run(s, obs, cooldown).spoken)
    decreases |obs|
  {
    if obs != [] {
      var it := Iterate(s, obs[0], cooldown);
      IterateKeepsClockOrder(s, obs, cooldown);
      if Halt(obs[0]).None? {
        RunAnnouncementsInClock(it.next, obs[1..], cooldown);
        WithinClockAppend(s.lastTime, it.next.lastTime, it.out, Run(it.next, obs[1..], cooldown).spoken);
      }
    }
  }

  /** With ordered clock readings, each announcement is decided after the previous one ended. */
  lemma {:induction false} RunAnnouncementsInOrder(s: AnnouncerState, obs: seq<Observation>, cooldown: real)
    requires ClockOrdered(s.lastTime, obs)
    ensures Sequential(Run(s, obs, cooldown).spoken)
    decreases |obs|
  {
    if obs != [] {
      var it := Iterate(s, obs[0], cooldown);
      IterateKeepsClockOrder(s, obs, cooldown);
      if Halt(obs[0]).None? {
        RunAnnouncementsInOrder(it.next, obs[1..], cooldown);
        RunAnnouncementsInClock(it.next, obs[1..], cooldown);
        SequentialAppend(it.next.lastTime, it.out, Run(it.next, obs[1..], cooldown).spoken);
      }
    }
  }

  /**
   With ordered clock readings, announcements are ordered in time and the
   remembered time never goes backwards.
   */
  lemma RunTimesOrdered(s: AnnouncerState, obs: seq<Observation>, cooldown: real)
    requires ClockOrdered(s.lastTime, obs)
    ensures WithinClock(s.lastTime, Run(s, obs, cooldown).spoken)
    ensures Sequential(Run(s, obs, cooldown).spoken)
    ensures s.lastTime <= Run(s, obs, cooldown).final.lastTime
  {
    RunAnnouncementsInClock(s, obs, cooldown);
    RunAnnouncementsInOrder(s, obs, cooldown);
    RunFinalState(s, obs, cooldown);
  }

  /**
   With ordered clock readings, two consecutive announcements of the same
   label are decided more than `cooldown` apart.
   */
  lemma RunRepeatDecisionsSpaced(s: AnnouncerState, obs: seq<Observation>, cooldown: real, i: int)
    requires ClockOrdered(s.lastTime, obs)
    requires 0 <= i < |Run(s, obs, cooldown).spoken| - 1
    requires Run(s, obs, cooldown).spoken[i].text == Run(s, obs, cooldown).spoken[i + 1].text
    ensures Run(s, obs, cooldown).spoken[i + 1].decidedAt - Run(s, obs, cooldown).spoken[i].decidedAt > cooldown
  {
    RunRepeatsSpaced(s, obs, cooldown);
    RunTimesOrdered(s, obs, cooldown);
  }

  /** A frame read with no detections and no ESC changes nothing: same announcements, final state and stop reason. */
  lemma RunSkipsEmptyFrame(s: AnnouncerState, obs: seq<Observation>, cooldown: real)
    requires obs != [] && obs[0].Labelled? && obs[0].names == [] && !obs[0].escPressed
    ensures Run(s, obs, cooldown).spoken == Run(s, obs[1..], cooldown).spoken
    ensures Run(s, obs, cooldown).final == Run(s, obs[1..], cooldown).final
    ensures Run(s, obs, cooldown).stop == Run(s, obs[1..], cooldown).stop
  {
  }

  /** A first frame whose dominant label differs from the remembered one starts the trace. */
  lemma RunAnnouncesNewFirstLabel(s: AnnouncerState, obs: seq<Observation>, cooldown: real)
    requires obs != [] && obs[0].Labelled? && obs[0].names != []
    requires Mode(obs[0].names) != s.lastSpoken
    ensures Run(s, obs, cooldown).spoken != []
    ensures Run(s, obs, cooldown).spoken[0] == Announcement(Mode(obs[0].names), obs[0].now, obs[0].tUpdate)
  {
  }

  /**
   Starting from a state whose remembered label is never observed (such as
   the initial empty label), the first frame with a non-empty label list is
   announced: the run's first announcement is its dominant label, decided at
   that frame's clock reading.
   */
  lemma {:induction false} FirstNonEmptyBatchAnnounced(s: AnnouncerState, obs: seq<Observation>, k: nat, cooldown: real)
    requires k < |obs|
    requires forall i :: 0 <= i < k ==> obs[i].Labelled? && obs[i].names == [] && !obs[i].escPressed
    requires obs[k].Labelled? && obs[k].names != []
    requires s.lastSpoken !in obs[k].names
    ensures Run(s, obs, cooldown).spoken != []
    ensures Run(s, obs, cooldown).spoken[0] == Announcement(Mode(obs[k].names), obs[k].now, obs[k].tUpdate)
    decreases k
  {
    if k == 0 {
      RunAnnouncesNewFirstLabel(s, obs, cooldown);
    } else {
      RunSkipsEmptyFrame(s, obs, cooldown);
      assert forall i :: 0 <= i < k - 1 ==> obs[1..][i] == obs[i + 1];
      FirstNonEmptyBatchAnnounced(s, obs[1..], k - 1, cooldown);
    }
  }

  /**
   A webcam session whose vocabulary has no empty class name announces the
   first frame with detections: after frames that were read but held no box,
   the first frame with boxes (all of known classes) yields the session's
   first announcement, a dominant label of that frame, decided at its clock
   reading.
   */
  lemma WebcamFirstDetectionAnnounced(vocab: Vocabulary, start: real, frames: seq<Frame>, k: nat)
    requires "" !in vocab.Values
    requires k < |frames|
    requires forall i :: 0 <= i < k ==> frames[i].Captured? && AllBoxes(frames[i].results) == [] && !frames[i].escPressed
    requires frames[k].Captured? && AllBoxes(frames[k].results) != [] && AllKnown(vocab, AllBoxes(frames[k].results))
    ensures Webcam(vocab, start, frames).spoken != []
    ensures IsMode(CollectLabels(vocab, frames[k].results).value, Webcam(vocab, start, frames).spoken[0].text)
    ensures Webcam(vocab, start, frames).spoken[0].decidedAt == frames[k].now
  {
    var obs := ObserveAll(vocab, frames);
    FirstNonEmptyBatchAnnounced(Initial(start), obs, k, DefaultCooldown);
  }

  /**
   The single-image session: collect the labels of the one detector call and
   announce a dominant label when there is any; an unknown class index ends
   it with that index.
   */
  function DetectImage(vocab: Vocabulary, results: seq<DetectionResult>): (r: Result<Option<Label>, int>)
    ensures r.Failure? <==> !AllKnown(vocab, AllBoxes(results))
    ensures r.Failure? ==> FirstUnknown(vocab, AllBoxes(results), r.error)
    ensures r.Success? ==> (r.value.Some? <==> AllBoxes(results) != [])
    ensures r.Success? && r.value.Some? ==> r.value.value in vocab.Values
    ensures r.Success? && r.value.Some? ==> IsMode(CollectLabels(vocab, results).value, r.value.value)
  {
    match CollectLabels(vocab, results)
    case Failure(c) => Failure(c)
    case Success(names) =>
      var spoken := ImageAnnouncement(names);
      if spoken.Some? then
        var j :| 0 <= j < |names| && names[j] == spoken.value;
        assert vocab[AllBoxes(results)[j].cls] == spoken.value;
        Success(spoken)
      else
        Success(spoken)
  }
}
