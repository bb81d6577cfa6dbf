# Spoken object announcements: the announcement policy

The application runs an object detector on a webcam stream or on a single
image, and speaks the name of the most frequent detected object class. This
project models the decision logic of that loop: which label a frame's
detections reduce to, when that label is spoken, and how the remembered state
and the loop's exit conditions evolve. It models `run_detection` in `1.py`
(webcam and image branches) and the top-level loop of `final.py`; both follow
the same policy.

- `wrappers.dfy` (`Wrappers`): `Option` and `Result`.
- `labels.dfy` (`Labels`): boxes, detector results and the class-name
  vocabulary. The label list of a frame has one entry per box, in order, or
  fails at the first class index the vocabulary lacks (the source's
  `model.names[cls]` raises then). `Count`, `IsMode` and `Mode` give the
  dominant label.
- `policy.dfy` (`Policy`): the remembered state `(lastSpoken, lastTime)` and
  the step. The step speaks the dominant label when it differs from the last
  spoken one, or when strictly more than `cooldown` seconds have passed. It
  also holds the stateless image-mode announcement.
- `session.dfy` (`Session`): the continuous loop as a fold over frames. The
  loop stops at a failed read, at an unknown class index, or after the frame
  on which ESC is pressed. The module also holds lemmas about the whole speech
  trace and the single-image session.
- `scenarios.dfy` (`Scenarios`): worked single-frame decisions with the
  source's 3-second cooldown.

Timestamps are `real` seconds passed in with each frame. `now` is the clock
read by the guard (`1.py:51`). `tUpdate` is the clock read after the blocking
speech has finished (`1.py:57`). The speech itself is one emitted
`Announcement`.

The tie-break among equally frequent labels in the source,
`max(set(names), key=names.count)`, depends on set iteration order. The body
of `Mode` fixes one rule, but every contract about it says only "a label of
the batch that no label outnumbers" (`IsMode`).

Points where the model follows the code's exact behaviour:
- The code breaks ties by set iteration order, not by any fixed rule such as
  the lexicographically smallest label.
- The code re-reads the clock after speaking, so the new state carries
  `tUpdate`, not the decision time `now`.
- A failed camera read just leaves the loop (`ReadFailed`).
- The code has no handler for speech or detector failures. The one failure
  inside the modelled logic, an unknown class index, raises and ends the
  session (`UnknownClass`).

## Model

| member | source | states |
|---|---|---|
| Labels.LookupBox | 1.py:45-46 | a box's label is the vocabulary entry for its class index; an index missing from the vocabulary is a lookup failure carrying that index |
| Labels.LookupLabels | 1.py:44-47 | the boxes of one result are looked up in order: either every class is known and the list has exactly the label of each box at the same position, or the result is the class of the first unknown box |
| Labels.LookedUpAppend | final.py:35-39 | looking up two box lists one after the other gives the same outcome as looking up their concatenation, including which unknown class is reported first |
| Labels.CollectLabels | final.py:33-39 | the frame's label list has exactly one entry per detected box across all results, in result then box order, each the vocabulary name of that box's class; it fails exactly when some class is unknown, naming the first one |
| Labels.Count | 1.py:50 | the number of occurrences of a label is at most the list length, and is zero exactly when the label is absent |
| Labels.CountIsMultiplicity | 1.py:50 | the occurrence count equals the label's multiplicity in the list seen as a multiset |
| Labels.Mode | 1.py:50 | the dominant label of a non-empty list is a member of the list, and no label of the list occurs strictly more often |
| Labels.StrictWinnerIsMode | final.py:42 | a label that occurs strictly more often than every other label of the list is the dominant one, whatever the tie-break |
| Labels.UniformBatchMode | 1.py:50 | a batch in which every entry is the same label L (any count of at least one) has L as its dominant label |
| Policy.Step | 1.py:49-57 | an empty label list speaks nothing and leaves the state unchanged; otherwise the step speaks exactly when the dominant label differs from the last spoken one or the elapsed time strictly exceeds the cooldown; what it speaks is exactly the dominant label the guard tested, and the state becomes that label with the post-speech time; a silent step changes nothing |
| Policy.NewLabelAlwaysAnnounced | 1.py:51 | a dominant label different from the last spoken one is announced whatever the elapsed time |
| Policy.RepeatNeedsCooldown | final.py:44 | when the dominant label equals the last spoken one, the step speaks exactly when more than the cooldown has elapsed, and at exactly the cooldown it is silent and keeps the state |
| Policy.SameBatchAfterAnnouncement | 1.py:51-57 | after a batch has been spoken, the same batch within the cooldown of the post-speech time is silent, and after it is spoken again with the clock refreshed |
| Policy.FirstBatchAnnounced | 1.py:26-51 | from the initial state (empty last label), a non-empty batch without empty labels is always announced |
| Policy.ImageAnnouncement | 1.py:76-81 | image mode speaks exactly when the label list is non-empty, and what it speaks is a dominant label |
| Policy.ImageIsFreshStep | 1.py:67-81 | image mode gives the same announcement as one continuous-mode step from a fresh state at the start time, when no label is the empty string |
| Session.Observe | final.py:32-39 | a failed read yields no labels; a read frame yields its full label list with its clock readings and ESC flag when all classes are known, otherwise the first unknown class |
| Session.Iterate | final.py:41-50 | one loop iteration speaks at most once; it speaks exactly when the frame has labels and the guard holds for their dominant label (a new label, or strictly more than the cooldown elapsed); a silent iteration keeps the state; the spoken label is that dominant label of the frame's labels, is stamped with the frame's two clock readings and becomes the remembered state; repeating the remembered label needs more than the cooldown |
| Session.Run | final.py:27-56 | the loop consumes no more frames than it is given, speaks at most once per consumed frame, and runs out of input only when it consumed every frame and the last one did not halt it |
| Session.RunPassesEarlierFrames | final.py:28-30 | every frame before the last consumed one was read successfully, had only known classes, and did not see ESC |
| Session.RunStopsWhereHalted | final.py:55-56 | a loop that stopped before running out of input stopped at its last consumed frame, for the reason that frame gives (failed read, unknown class or ESC) |
| Session.RunStopsAtFirstHalt | 1.py:35-61 | the loop stops at the first halting frame for its reason, and runs out of input exactly when no frame halts it |
| Session.RunIgnoresLaterFrames | final.py:27-56 | when some frame halts the loop (failed read, unknown class or ESC), the run over all frames equals the run over the frames up to that one: nothing after it is processed |
| Session.RunFinalState | final.py:49-50 | after any run the remembered label and time are those of the most recent announcement, or the starting ones when nothing was spoken |
| Session.RunSpeaksObserved | final.py:42-46 | every spoken label is one of the labels the loop observed |
| Session.WebcamSpeaksVocabulary | 1.py:43-53 | every label a webcam session speaks is a class name of the detector's vocabulary |
| Session.RunRepeatsSpaced | final.py:44-50 | with no assumption on the clock, two consecutive announcements of the same label are separated by more than the cooldown, from the end of the first speech to the decision on the second, including a repeat of the label remembered at the start |
| Session.RunTimesOrdered | final.py:44-50 | with clock readings ordered along the run, announcements lie in order in time and the remembered time never goes backwards |
| Session.RunRepeatDecisionsSpaced | 1.py:51-57 | with clock readings ordered along the run, consecutive announcements of the same label are decided more than the cooldown apart |
| Session.RunSkipsEmptyFrame | final.py:41 | a read frame with no detections and no ESC changes nothing: the announcements, the final state and the stop reason are those of the run without that frame |
| Session.RunAnnouncesNewFirstLabel | final.py:42-50 | a first frame whose dominant label is not the remembered one starts the trace with that label at that frame's times |
| Session.FirstNonEmptyBatchAnnounced | final.py:19-44 | from a state whose remembered label is not among the frame's labels, after frames without detections, the first frame with detections yields the first announcement, its dominant label, at its clock reading |
| Session.WebcamFirstDetectionAnnounced | 1.py:26-57 | a webcam session over a vocabulary without an empty name announces a dominant label of the first frame with detections, at that frame's decision time |
| Session.DetectImage | 1.py:67-81 | the image session fails exactly when some box has an unknown class, naming the first one; otherwise it speaks exactly when at least one box was detected, and what it speaks is a dominant label of the image's label list, which is a vocabulary class name |
| Scenarios.FreshDogAnnounced | 1.py:26-57 | a single "dog" at time 1 from the initial state is spoken and remembered as ("dog", 1) |
| Scenarios.DogRepeatWithinCooldownSilent | 1.py:49-57 | with "dog" spoken at time 1, two dogs and a cat at time 2 stay silent and leave the state unchanged |
| Scenarios.DogRepeatAfterCooldownAnnounced | 1.py:49-57 | with "dog" spoken at time 1, the same batch at time 5 speaks "dog" again and remembers time 5 |
| Scenarios.DogRepeatAtCooldownSilent | 1.py:27-51 | with "dog" spoken at time 1, "dog" again at time 4, exactly the 3-second cooldown later, stays silent |

## Left out

- Detector loading and inference (`1.py:15,40,68`, `final.py:8,32`): a frame's detector output is an input, a sequence of results each holding boxes with an integer class index. Confidence and box geometry are not used by the policy and are not modelled.
- Speech (`1.py:18-21,53-55`, `final.py:11-14,46-48`): the thread is joined at once, so speech is synchronous. It is modelled as one emitted announcement. Its duration appears only as the gap between `now` and `tUpdate`.
- Camera capture, windows, drawing and release (`1.py:32-33,59,63-64,83`, `final.py:17,24-25,53,58-59`): only "read succeeded or failed" and "ESC pressed after display" remain, as inputs. Indexing `results[0]` for display assumes the detector returns at least one result; the model does not model that index.
- The Tk GUI, its globals, file dialog, drop handler and daemon threads (`1.py:86-183`): user-interface plumbing and concurrency.
- `time.time()` float semantics: timestamps are unbounded `real`s supplied per frame. The trace lemmas that need clock order take it as a precondition (`ClockOrdered`).
- The `print` diagnostics (`1.py:52,78`, `final.py:40,45`).
- The source loop is unbounded; the model folds over a finite sequence of frames, and `InputExhausted` only says the modelled input ran out.
- Labels.Mode: the source's tie-break follows set iteration order, which is not specified. The body fixes one rule, and its contract (`IsMode`) deliberately says nothing about which of several equally frequent labels is chosen.
