# Scene deck controller of `wrapped.js`, modelled in Dafny

`wrapped.js` drives a full-screen presentation: a fixed list of scene containers,
one of which is shown at a time. The controller owns two variables:
`currentScene`, the index of the scene on show, and `isTransitioning`, a
re-entrancy guard. Key presses and clicks call `goToScene(currentScene ± 1)`.

`goToScene` wraps the requested index into range. It does nothing while a
transition is running, and nothing when the target is the current scene.
Otherwise it raises the guard and takes four steps:

- it writes each outgoing element's exit distance, `-{bottom + 80}px`, into
  `--exitY`;
- it marks the new scene `active` and `is-entering`;
- it derives each incoming element's `--enterY` from its positional partner's
  exit value, parsed back from that string;
- it marks the old scene `is-leaving`.

Two deferred callbacks finish the job. A frame flip removes `is-entering`. A
completion clears the old scene's classes and all annotations, commits
`currentScene` and drops the guard.

The model has five modules:

- `Wrappers` (`wrappers.dfy`): the `Option` type.
- `Text` (`text.dfy`): how a template literal prints an integer, `trim`,
  `replace` with a string pattern, and `parseFloat` followed by
  `Number.isFinite`. It proves that printing an integer and parsing it back
  gives the same integer.
- `Scenes` (`scenes.dfy`): animated elements (`Anim`: bottom edge, `--exitY`,
  `--enterY`), scenes (`Scene`: class set, elements), and the distance rule.
  It proves the exit/enter round trip and distance continuity against a
  reference definition stated on geometry alone (`ExpectedEnter`).
- `Transition` (`transition.dfy`): the whole deck as a value (`DeckState`),
  the initial-index rule, the target rule, the three phases of a transition,
  the key and click mapping, and the deck's properties.
- `Wrapped` (`deck.dfy`): the class `Deck`. It holds the scenes in an array,
  `currentScene` and `isTransitioning` as fields, and a `pending` field for the
  callbacks the host has been handed. The four distance helpers are loops over
  a scene's elements. `GoToScene`, `FrameFlip` and `Complete` update the deck in
  place. Each method's postcondition says the new state `State()` equals the
  matching `Transition` function of the old state.

Two error paths of the source are modelled rather than excluded. On an empty
deck, `(n + 0) % 0` is NaN and never equals `currentScene`. The guard is raised,
and then `setExitDistances(undefined)` throws. If `nextIndex < -total`, the
truncating `%` gives a target that is negative or `-0`. A target of `-0`
equals `0` under `===` and indexes scene 0, so it behaves as 0 (on a
one-scene deck this is the case for every `nextIndex < -1`). A truly negative
target is not a scene: the old scene's exit distances are written, and then
`classList` of `undefined` throws. In both cases the guard
stays raised for good and nothing is scheduled: the outcome is `Faulted` and
the pending state is `Stuck`. Key presses and clicks on a non-empty deck never
reach either path (`InputNeverFaults`).

One edge of the distance rule shows in the proofs. When `bottom + 80` is
negative, the exit value is written as `--{|d|}px`. That string does not parse
as a number, so the partner element falls back to `innerHeight + 80`
(`ExitRoundTrip`, `ExpectedEnter`).

`wrapped.js` has no input throttling, touch gestures, resize re-measurement,
reduced-motion timing, or filtering of clicks on interactive controls. It has
a fixed `DURATION` (line 8) and advances on every click (lines 109-111), and
so does the model.

Host inputs become parameters:

- `window.innerHeight` is the `innerHeight` argument of `GoToScene`, `OnKeyDown`
  and `OnClick`.
- Each element's `getBoundingClientRect().bottom` is the `bottom` field of its
  `Anim` record.
- The key of a keydown event is the `key` argument.

## Model

| member | source | states |
|---|---|---|
| `Transition.FirstActive` | wrapped.js:3 | the result is the index of the first scene whose classes contain "active", and -1 exactly when no scene does |
| `Transition.InitialIndex` | wrapped.js:3-4 | the initial index is the first active scene, or 0 when none is active; it is a valid index whenever the deck is non-empty |
| `Transition.Init` | wrapped.js:2-6 | the initial deck satisfies the invariant, keeps the scenes as found, starts at `InitialIndex` (the first active scene, or 0), has the guard down and nothing scheduled |
| `Wrapped.Deck.constructor` | wrapped.js:2-6 | the new deck's state is `Init` of the scenes found, and it satisfies `Valid()` |
| `Text.Digits` | wrapped.js:14 | printing a non-negative integer gives a non-empty string of decimal digits without a leading zero |
| `Text.IntToString` | wrapped.js:14 | a printed integer consists of digits and minus signs, and starts with '-' exactly when it is negative |
| `Text.TrimStart` | wrapped.js:37 | the result is a suffix of the input that does not start with white space, and everything removed before it is white space |
| `Text.TrimEnd` | wrapped.js:37 | the result is a prefix of the input that does not end with white space, and everything removed after it is white space |
| `Text.Trim` | wrapped.js:37 | the result is a contiguous piece of the input that neither starts nor ends with white space, and everything removed on either side of it is white space |
| `Text.ReplaceFirst` | wrapped.js:38 | at most one occurrence is replaced: the length is unchanged or changes by `|rep| - |pat|` |
| `Text.ReplaceAbsent` | wrapped.js:38 | a string without the pattern comes back unchanged |
| `Text.ReplaceAt` | wrapped.js:38 | when the first occurrence of the pattern is at `i`, exactly that occurrence is replaced and the rest of the string is kept |
| `Text.ReplacePxSuffix` | wrapped.js:38 | removing the first "px" from `x + "px"`, where `x` has no 'p', gives back `x` |
| `Text.DigitRun` | wrapped.js:38 | the result is the length of the longest all-digit prefix |
| `Text.ParseUnsigned` | wrapped.js:38 | a number is read exactly when the string starts with a digit, and it is non-negative |
| `Text.DigitsValueOfDigits` | wrapped.js:14 | the printed digits of a non-negative integer denote that integer |
| `Text.ParseFinite` | wrapped.js:38-39 | after leading white space and an optional sign, a finite number is read exactly when a digit follows; it is non-positive after '-' and non-negative otherwise |
| `Text.ParseAfterMinus` | wrapped.js:38 | a minus sign followed by text that reads as `v` reads as `-v` |
| `Text.ParseIntToString` | wrapped.js:14-38 | parsing a printed integer followed by non-digit text gives back that integer |
| `Text.ParseDoubleMinus` | wrapped.js:14-39 | a minus sign written before a printed negative integer ("--5px") parses as no finite number |
| `Scenes.Paired` | wrapped.js:33 | incoming element `i` is paired with outgoing element `i` if it exists, else with element 0, and with none exactly when the outgoing scene has no animated elements |
| `Scenes.EnterDistance` | wrapped.js:25-43 | the enter distance is the fallback or non-negative, so it is never negative when the fallback is not; it is the fallback when there is no outgoing element |
| `Scenes.ExitRoundTrip` | wrapped.js:13-39 | reading back an exit annotation `-{d}px` gives `-d` when `d >= 0`, and no finite number when `d < 0` |
| `Scenes.ReadExit` | wrapped.js:37-39 | an element without `--exitY` reads as no finite number, so its partner falls back to `innerHeight + 80` |
| `Scenes.EnterContinuity` | wrapped.js:24-45 | after the exit annotations are written, each incoming element's enter distance equals the reference distance: its partner's `bottom + 80`, or the fallback when there is no partner or that distance is negative |
| `Transition.JsRemainder` | wrapped.js:57 | JavaScript `%`: the remainder lies strictly between `-b` and `b`, has the sign of the dividend, and differs from the dividend by a multiple of `b` (`a == b * trunc(a / b) + r`), which fixes it uniquely; for a non-negative dividend it is the Euclidean remainder |
| `Transition.TargetIndex` | wrapped.js:56-57 | the target is NaN exactly for an empty deck, otherwise lies in `(-total, total)`, is congruent to `next + total` modulo `total`, is `(next + total) % total` in `[0, total)` whenever `next >= -total`, and is at most 0 (negative or `-0`) when `next < -total` |
| `Transition.Decide` | wrapped.js:54-58 | a call is ignored as busy exactly when the guard is up, and as a no-op exactly when the target is the current scene; a started transition targets a valid index other than the current one; a fault means an empty deck or a negative target |
| `Transition.GoTo` | wrapped.js:53-94 | `goToScene` keeps the invariant and leaves `currentScene` unchanged; while the guard is up, and when the target is the current scene, it changes nothing at all (no index, guard, class, annotation or scheduled callback); a started call raises the guard and schedules the frame flip for the target; a throwing call leaves the guard up with nothing scheduled |
| `Transition.FlipScenes` | wrapped.js:80 | only the target scene changes: it loses "is-entering" and keeps its other classes and its elements |
| `Transition.FrameFlip` | wrapped.js:78-82 | the frame flip keeps the invariant, keeps the index and the guard, and leaves only the completion of the same transition (same old and new scene) pending; the new scene loses "is-entering" and nothing else in the deck changes |
| `Transition.CompleteScenes` | wrapped.js:86-89 | the old scene loses "active" and "is-leaving" and every `--exitY`; the new scene keeps its classes and loses every `--enterY`; all other scenes are unchanged |
| `Transition.Complete` | wrapped.js:85-93 | the completion keeps the invariant, sets `currentScene` to the target, drops the guard and leaves nothing pending |
| `Transition.KeyStep` | wrapped.js:97-105 | ArrowDown, ArrowRight and space ask for +1, ArrowUp and ArrowLeft for -1, and no other key asks for anything |
| `Transition.OnKey` | wrapped.js:97-106 | the keydown handler keeps the deck invariant, and a key that maps to no step leaves the deck unchanged |
| `Transition.OnClick` | wrapped.js:109-111 | the click handler keeps the deck invariant |
| `Transition.StepTarget` | wrapped.js:56-58 | stepping by ±1 from a valid index targets `(current ± 1 + total) % total`; from the last scene forward goes to 0, from scene 0 back goes to the last scene; a one-scene deck never starts a transition |
| `Transition.StartScenes` | wrapped.js:62-75 | the old scene gets "is-leaving", the new scene "active" and "is-entering"; every scene keeps its number of elements and every other scene is unchanged |
| `Transition.FaultScenes` | wrapped.js:62-69 | a call that throws (empty deck or negative target) has already written the old scene's exit distances when that scene exists, keeps its classes, and changes no other scene |
| `Transition.StartShape` | wrapped.js:62-75 | during a transition, the old scene has "is-leaving" added and carries exit distances; the new scene has "active" and "is-entering" added and carries enter distances derived from the old scene; all other scenes are unchanged |
| `Transition.StartEnterDistances` | wrapped.js:62-72 | every incoming element's `--enterY` is `{d}px`, where `d` is its partner's exit distance or `innerHeight + 80`, and `d` is never negative |
| `Transition.CycleEffect` | wrapped.js:62-93 | after a whole transition, the old scene has lost "active" and "is-leaving" and all its `--exitY`; the new scene has gained "active", has no "is-entering" and no `--enterY`; everything else is as before |
| `Transition.TransitionCommits` | wrapped.js:60-93 | an accepted call raises the guard and leaves `currentScene` alone; the completion commits the target and drops the guard; if only the old scene was active, only the new one is active afterwards |
| `Transition.TidyTransition` | wrapped.js:60-93 | from a tidy deck, right after `goToScene` exactly two scenes are in play (old: active and leaving; new: active and entering), and the deck is tidy again, at the target, once the transition completes |
| `Transition.TidyAnimating` | wrapped.js:60-82 | from a tidy deck, after the frame flip exactly the old and the new scene are active, no scene is entering, only the old scene is leaving, the annotations written by `goToScene` are still in place, and the completion of this transition is pending |
| `Transition.TidyCycle` | wrapped.js:62-89 | starting, flipping and completing a transition on tidy scenes leaves them tidy at the target: only it is active, no scene is entering or leaving, and no annotation is left |
| `Transition.OneSceneTarget` | wrapped.js:56-58 | on a one-scene deck every `nextIndex`, also one below `-1`, targets scene 0, so the call is a no-op |
| `Transition.OneSceneDeckStaysPut` | wrapped.js:56-58 | on a one-scene deck every key press and click leaves the whole deck unchanged |
| `Transition.StuckDeckIgnoresInput` | wrapped.js:53-69 | a deck whose call threw after raising the guard ignores every later request |
| `Transition.InputNeverFaults` | wrapped.js:96-111 | on a non-empty deck, the key and click handlers never make `goToScene` throw |
| `Transition.ClickOnThreeScenes` | wrapped.js:109-111 | a tidy three-scene deck on scene 0 is, after a click, the flip and the completion, on scene 1 with the guard down and no annotations left |
| `Wrapped.Deck.SetExitDistances` | wrapped.js:10-16 | the loop annotates every element of the scene with its exit string, and changes nothing else |
| `Wrapped.Deck.ClearExitDistances` | wrapped.js:18-22 | the loop removes `--exitY` from every element of the scene, and changes nothing else |
| `Wrapped.Deck.SetEnterDistances` | wrapped.js:24-45 | the loop gives every element of the next scene the `--enterY` of `EnterDistance` over the previous scene's elements, and changes nothing else |
| `Wrapped.Deck.ClearEnterDistances` | wrapped.js:47-51 | the loop removes `--enterY` from every element of the scene, and changes nothing else |
| `Wrapped.Deck.GoToScene` | wrapped.js:53-94 | the returned outcome is `Decide` of the old guard, index and target; the new state is `GoTo` of the old state |
| `Wrapped.Deck.FrameFlip` | wrapped.js:78-82 | the new state is `Transition.FrameFlip` of the old one |
| `Wrapped.Deck.Complete` | wrapped.js:85-93 | the new state is `Transition.Complete` of the old one |
| `Wrapped.Deck.OnKeyDown` | wrapped.js:97-106 | a mapped key calls `goToScene(currentScene ± 1)` with that call's outcome; any other key changes nothing |
| `Wrapped.Deck.OnClick` | wrapped.js:109-111 | a click calls `goToScene(currentScene + 1)` and returns that call's outcome |

## Left out

- DOM access (`querySelectorAll`, `classList`, `style.setProperty`/`removeProperty`): modelled as fields of the scene and element records.
- `getComputedStyle(el).getPropertyValue("--exitY")` is modelled as the element's own inline annotation. A value inherited from an ancestor or set by a style sheet is not modelled.
- Timing: `requestAnimationFrame`, `setTimeout` and `DURATION` (2000 ms) are not modelled. The two callbacks are the explicit steps `FrameFlip` and `Complete`.
- Wrapped.Deck.Complete: requires the frame flip to have run. In a visible tab two animation frames are far shorter than 2000 ms. In a hidden tab, though, `requestAnimationFrame` is paused while `setTimeout` still fires, so the completion can run before the flip and "is-entering" is then removed from a scene that is already current. That order is not modelled.
- Each element's `bottom` is fixed when the deck is built. `wrapped.js` measures it afresh with `getBoundingClientRect()` on every call (line 12), so layout changes between transitions are not modelled; `innerHeight`, by contrast, is a fresh argument of every call.
- Geometry is in whole pixels. `bottom` and `innerHeight` are integers, not floating-point numbers.
- Text.ParseFinite: reads the sign and integer digits only. A fraction or exponent after the digits is ignored, and text that starts with a decimal point (`".5"`, `"-.5"`) reads as no number, where `parseFloat` would give 0.5 or -0.5; `Infinity` is left out too, since `Number.isFinite` rejects it anyway. The controller itself only ever writes integers.
- Text.IntToString: always prints plain decimal. JavaScript switches to exponent notation at 1e21 and above.
- Text.IsSpace: covers ASCII white space, no-break space, BOM and the line and paragraph separators. It does not cover the other Unicode space separators that `trim` removes.
- Event-listener registration and `preventDefault`: left out. Only the key and click mapping onto `goToScene` is kept.
- A thrown TypeError is modelled only by its effect on the deck (the `Faulted` outcome and the `Stuck` state). The host's error reporting is left out.
