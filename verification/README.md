# cloudfit-gym, modelled in Dafny

cloudfit-gym is a browser app for running gym workouts. A workout is an ordered list of modules. Each module names an exercise, the display it plays on ("local" for the phone itself, or a paired TV by its peer id) and an optional duration that overrides the exercise's own.

The phone ("host") runs the countdown. After every change it sends a `SYNC_STATE` snapshot to the TV that shows the current module. At the end it sends `END_SESSION` to every connected TV. A TV ("station") only shows the last snapshot it received.

This project models:
- the host player (`Player`), a class over the countdown state and the host's connections, specified by pure step functions;
- the station (`Station`), a class whose only state change is the message handler;
- the editor (`WorkoutEditor`) and the preparation screen (`Prepare`);
- the home screen (`Home`), the workout card (`WorkoutCard`) and the exercise library (`Library`);
- the application shell (`App`).

Shared pieces live in `Seqs`, `Text`, `Types`, `Workouts` and `Protocol`:
- list operations written with JavaScript's `filter`, `new Set` and the remove-or-append toggle;
- ASCII case mapping, `substring` and `includes`;
- the records;
- the catalog lookup and the effective duration `m.duration ?? exercise?.duration ?? 0`;
- the wire messages.

## Modelling choices

- **Catalog.** The exercise catalog is a list that is searched front to back, as `Array.prototype.find` does.
- **Randomness and time.** Random ids, the random base-36 string of the station id and `Date.now()` are all parameters.
- **Storage.** The stored workout list is a value passed in.
- **JavaScript arithmetic.** JavaScript's `%` keeps the sign of the dividend, so it is modelled explicitly (`Workouts.JsRem`). `Math.floor(t / 60)` is Dafny's `/` for a positive divisor.
- **Timer.** The host's countdown is modelled in two ways:
  - `Player.Step` is one atomic timer step: a running tick, or an advance that loads the next module's duration in the same step. `Player.StepView` adds the exercise shown: it is resolved when a module is entered and cleared only when the session is completed. `Player.HostSession.Tick` implements `StepView`.
  - `Player.CommitAsWritten` is the component as written, over the countdown and the exercise. Its two effects (views/Player.tsx:56-69 and 84-93) read the same rendered snapshot in a commit, and their updates land in effect order. This is what the findings below are about.
  - The player shows its completion screen when there is no current module or no exercise (views/Player.tsx:101); `Player.ShowsCompletion` is that test.
- **Connections.** The host's connection map is modelled as a set of registered display ids (`connections`) and the subset whose channel is open (`open`).

### What the code does not do

- **No broadcast.** A snapshot goes only to the current module's display, and only when that display's channel is open (views/Player.tsx:72-82). Other open channels get nothing. There is no snapshot at a fixed cadence, only one per change of exercise, countdown or pause flag.
- **No end timestamp.** The host keeps a countdown integer that an interval lowers once a second (views/Player.tsx:84-88). The station shows the last number it was sent (views/TVView.tsx:65, 90) and does no time keeping of its own.
- **No clamp on negative durations.** A negative effective duration matches none of the timer effect's branches (views/Player.tsx:85-93), so the countdown stalls (`Player.NegativeTimeStalls`).
- **No removal of closed channels.** The connection map only ever gains entries (views/Player.tsx:42). A channel closed by the transport stays in it, and the sync effect checks `conn.open` before sending (views/Player.tsx:75).

## Model

| member | source | states |
|---|---|---|
| Seqs.Filter | views/WorkoutEditor.tsx:90 | `filter` keeps exactly the elements satisfying the predicate, each with its multiplicity, never growing the list |
| Seqs.FilterIsSubseq | views/WorkoutEditor.tsx:90 | `filter` keeps the original order (its result is a subsequence) |
| Seqs.FilterAppend | views/Home.tsx:86 | filtering a concatenation filters each part |
| Seqs.Dedup | views/Home.tsx:103 | `Array.from(new Set(s))` has no repeats and exactly the values of `s` |
| Seqs.DedupIsSubseq | views/Player.tsx:33-37 | the `Set` contents come out as a subsequence of the input: no value moves before one that preceded it |
| Seqs.DedupSnoc | views/Player.tsx:33-37 | a `Set` keeps insertion order: adding a value already present changes nothing, adding a new one puts it last; this fixes the order of first occurrence |
| Seqs.Toggle | views/WorkoutEditor.tsx:47-49 | the toggled value's membership flips, every other value's is kept; removal keeps order, adding appends |
| Seqs.ToggleTwice | views/WorkoutEditor.tsx:47-49 | toggling twice restores membership, and the list itself when the value was absent |
| Seqs.ToggleKeepsNoDuplicates | views/WorkoutEditor.tsx:47-49 | toggling never creates a repeat |
| Text.ToUpper | views/Home.tsx:92 | upper-casing keeps the length, maps each character, leaves no lower-case letter |
| Text.Substring | views/TVView.tsx:12 | `substring(start, end)` is the slice when the bounds are in range, and never longer than the string |
| Text.IncludesIffOccurs | views/Library.tsx:27 | `includes` holds exactly when the text occurs at some position |
| Text.JoinOfSingletons | views/Home.tsx:234 | joining one-character slots gives one character per slot |
| Text.JoinNoLower | views/Home.tsx:234 | joining upper-case slots gives an upper-case code |
| Text.Decimal | views/Home.tsx:74 | a number renders as its decimal digits (a minus sign first when negative), with no leading zero, and the digits denote exactly its magnitude |
| Text.DecimalInjective | views/Home.tsx:74 | different numbers render differently |
| Workouts.FindExercise | views/Player.tsx:58 | `find` returns the first catalog entry with the id, and nothing only when no entry has it |
| Workouts.FindExerciseInConcat | views/Prepare.tsx:20 | a lookup in a concatenated catalog takes the first part's match, else the second's |
| Workouts.EffectiveDuration | views/Player.tsx:64 | the module's own duration when set (even 0), else the duration of the first catalog entry with the id, else 0 |
| Workouts.TotalSeconds | views/WorkoutEditor.tsx:95-99 | the total of effective durations is 0 for no modules and non-negative for non-negative data |
| Workouts.TotalSecondsAppend | views/WorkoutEditor.tsx:95-99 | the total of a concatenation is the sum of the totals |
| Workouts.TotalSecondsFilter | views/WorkoutEditor.tsx:87-93 | splitting the modules by a predicate splits the total |
| Workouts.JsRem | views/WorkoutEditor.tsx:102 | JavaScript `%`: the remainder of division with the quotient truncated toward zero, with the dividend's sign and below the divisor in size |
| Workouts.MinutesSeconds | views/WorkoutEditor.tsx:101-103 | for a non-negative total, minutes * 60 + seconds is the total and seconds are below 60 |
| Workouts.MinutesSecondsAddMinute | views/Prepare.tsx:88-90 | adding a minute raises the minutes by one and keeps the seconds |
| Workouts.SetDisplay | views/WorkoutEditor.tsx:74 | only the matching modules get the new display; nothing else in any module changes |
| Workouts.SetDuration | views/WorkoutEditor.tsx:82 | only the matching modules get the new duration; nothing else changes |
| Workouts.SetDisplayKeepsTotal | views/Prepare.tsx:31-37 | re-routing modules to displays never changes the total time |
| Workouts.SetDurationEffective | views/Prepare.tsx:23-29 | a set duration is the module's effective duration whatever the catalog says |
| Library.MergeOverrides | views/Library.tsx:24 | each catalog entry is replaced by the override stored under its id, if any, position by position |
| Library.MergeIdempotent | views/Library.tsx:24 | with overrides keyed by their own id, merging twice is merging once |
| Library.MergeNoOverrides | views/Library.tsx:24 | no overrides leaves the catalog as it is |
| Library.FilterExercises | views/Library.tsx:26-30 | exactly the exercises whose lower-cased name contains the lower-cased search and whose category matches (or 'All'), each as often as in the input, in order |
| Library.EmptySearchKeepsAll | views/Library.tsx:26-30 | an empty search on 'All' lists every exercise in order |
| Library.SearchIgnoresCase | views/Library.tsx:27 | upper-casing the search text, or the exercise name, does not change what matches |
| Station.Apply | views/TVView.tsx:23-29 | `SYNC_STATE` stores its payload, `END_SESSION` clears, any other message changes nothing |
| Station.LastWriteWins | views/TVView.tsx:23-29 | after any message sequence the cell holds the last `SYNC_STATE` payload unless an `END_SESSION` came later; with neither, its initial value |
| Station.ApplyAllAppend | views/TVView.tsx:23-29 | handling two batches in turn is handling their concatenation |
| Station.DuplicateDelivery | views/TVView.tsx:23-29 | a message delivered twice in a row has the effect of one delivery |
| Station.Render | views/TVView.tsx:37-95 | no session shows the pairing screen with the peer id or "..."; a session shows its exercise, time and pause flag |
| Station.ShowsLastPayload | views/TVView.tsx:65-95 | the time and pause flag on screen are the last payload's |
| Station.EndShowsWaiting | views/TVView.tsx:26-27 | after `END_SESSION` the pairing screen is back |
| Station.PairingId | views/TVView.tsx:12 | the station id is at most six characters, exactly six for a long enough random string, with no lower-case letter |
| Station.StationView.Receive | views/TVView.tsx:23-29 | the handler replaces the session cell by `Apply` of the message and touches nothing else |
| Station.StationView.PeerOpened | views/TVView.tsx:18-20 | the peer's id is recorded; the session is unchanged |
| Station.StationView.constructor | views/TVView.tsx:6-7 | a station starts with no session and no peer id |
| Player.DisplayIds | views/Player.tsx:36 | the mapped ids are exactly the modules' display ids |
| Player.RemoteDisplayIds | views/Player.tsx:33-37 | the dialled ids are the non-local display ids of the workout, each once |
| Player.Enter | views/Player.tsx:56-65 | entering module k sets the index to k and the countdown to k's effective duration |
| Player.InitialTimer | views/Player.tsx:12-14 | a session starts on module 0, unpaused, with module 0's full duration |
| Player.StepMoves | views/Player.tsx:84-93 | a running tick removes one second and keeps the module; at zero the next module is entered with its duration; the index stays in range and moves by at most one |
| Player.StepNonNegative | views/Player.tsx:84-93 | with non-negative durations the countdown never goes below zero |
| Player.PausedIsFrozen | views/Player.tsx:85 | while paused with time left nothing moves |
| Player.ZeroAdvancesEvenWhenPaused | views/Player.tsx:89-90 | the advance at zero ignores the pause flag |
| Player.CompletedIsFinal | views/Player.tsx:91-92 | a completed session stays completed |
| Player.NegativeTimeStalls | views/Player.tsx:85-93 | a negative countdown never changes again |
| Player.RunCountsDown | views/Player.tsx:85-88 | k running ticks remove exactly k seconds |
| Player.RunCompletes | views/Player.tsx:84-93 | an unpaused session is completed after exactly the remaining time plus one tick per module change, and at no earlier tick |
| Player.RunEntersModule | views/Player.tsx:56-65 | an unpaused session enters every later module with its full duration within that many ticks |
| Player.EntriesInOrder | views/Player.tsx:89-90 | a later module is entered at a later tick: the modules are visited in order |
| Player.SkipNext | views/Player.tsx:190-192 | "next" keeps the index in range |
| Player.SkipPrev | views/Player.tsx:171-173 | "previous" keeps the index in range |
| Player.SkipRoundTrip | views/Player.tsx:171-192 | skips are no-ops at the ends, otherwise move one module with a fresh countdown; next then previous re-enters the module with its full duration |
| Player.AutoAdvanceSkipsModule | views/Player.tsx:84-93 | as written, reaching zero on module i lands on module i+2 with module i+1's duration, while the corrected step enters i+1 |
| Player.AutoAdvanceEndsEarly | views/Player.tsx:89-92 | as written, reaching zero on the second-to-last module loads the last module's countdown but clears the exercise after the reset set it, so the completion screen shows and stays; the corrected step keeps the exercise |
| Player.MountSkipsFirstModule | views/Player.tsx:13 | as written, the mount commit moves past module 0 when there is a second module, and with one module clears the exercise after the reset set it, so the completion screen shows with the countdown loaded; from `InitialView` module 0 is shown |
| Player.ResolveExercise | views/Player.tsx:58-61 | a module resolves to an exercise exactly when the catalog has its exercise id |
| Player.ResolveMatchesLibrary | views/Player.tsx:58-61 | with overrides stored under their own id, the resolved exercise is the first entry with the id in the catalog as the library merges it |
| Player.InitialView | views/Player.tsx:12-15 | the player starts from `InitialTimer`; when the catalog has module 0's exercise the exercise is shown, not the completion screen |
| Player.StepView | views/Player.tsx:56-93 | the corrected step moves the countdown by `Step` and clears the exercise only when the session is completed; a completed session shows the completion screen |
| Player.CompletionOnlyAtEnd | views/Player.tsx:84-101 | with the corrected step, an unpaused session showing an exercise keeps showing one until it is completed, and shows the completion screen on the next tick |
| Player.TeardownTraceShape | views/Player.tsx:48-50 | in a teardown every visited display is sent `END_SESSION` immediately before its channel is closed, and nothing else happens |
| Player.HostSession.constructor | views/Player.tsx:12-15 | the session starts from `InitialView` and with no connections |
| Player.HostSession.Tick | views/Player.tsx:84-93 | the countdown and the exercise move by `StepView`; connections are untouched and the invariant holds |
| Player.HostSession.TogglePause | views/Player.tsx:180 | the pause button flips the flag only while the controls are shown |
| Player.HostSession.Next | views/Player.tsx:190-192 | the "next" button moves as `SkipNext` while the controls are shown |
| Player.HostSession.Prev | views/Player.tsx:171-173 | the "previous" button moves as `SkipPrev` while the controls are shown |
| Player.HostSession.ChannelOpened | views/Player.tsx:41-43 | an opened channel to a dialled display is registered and open |
| Player.HostSession.ChannelClosed | views/Player.tsx:75 | a closed channel stays registered but is no longer open |
| Player.HostSession.SyncTarget | views/Player.tsx:72-82 | a snapshot goes to the current module's display exactly when there is an exercise, the display is not local, not empty and its channel is open; that display is one the host dialled |
| Player.HostSession.SyncMessage | views/Player.tsx:76-79 | the snapshot carries the exercise, the countdown and the pause flag |
| Player.HostSession.Teardown | views/Player.tsx:47-51 | every registered display is visited once and is sent `END_SESSION` before its channel is closed (the trace is `TeardownTrace` of the visit order); every channel ends closed |
| WorkoutEditor.AddModule | views/WorkoutEditor.tsx:27-38 | the new module for the exercise, on the local display with the exercise's duration, is appended and the time stamped |
| WorkoutEditor.AddModuleTotal | views/WorkoutEditor.tsx:27-38 | adding an exercise adds exactly its duration to the total |
| WorkoutEditor.ToggleScheduleDay | views/WorkoutEditor.tsx:45-52 | the day's membership flips, every other day's is kept, the modules and time stamp are untouched |
| WorkoutEditor.ToggleScheduleDayTwice | views/WorkoutEditor.tsx:45-52 | toggling a day twice restores the days (and the list when it was absent); no repeats appear |
| WorkoutEditor.ToggleFolderMembership | views/WorkoutEditor.tsx:54-69 | the workout's membership flips in the folders with that id only; other folders and other workouts are untouched |
| WorkoutEditor.ToggleFolderTwice | views/WorkoutEditor.tsx:54-69 | toggling a folder twice gives every folder back its members |
| WorkoutEditor.UpdateModuleDisplay | views/WorkoutEditor.tsx:71-77 | only the matching modules move to the display; the time is stamped |
| WorkoutEditor.UpdateModuleDisplayKeepsTotal | views/WorkoutEditor.tsx:71-77 | re-routing a module keeps the total |
| WorkoutEditor.UpdateModuleDuration | views/WorkoutEditor.tsx:79-85 | the matching modules get the duration, or 5 seconds when it is less, and keep every other field; other modules are untouched |
| WorkoutEditor.UpdateModuleDurationEffective | views/WorkoutEditor.tsx:79-85 | an edited module lasts at least 5 seconds whatever the catalog says; non-negative overrides stay so |
| WorkoutEditor.RemoveModule | views/WorkoutEditor.tsx:87-93 | every module with the id goes, the others stay, each as often as before, in order |
| WorkoutEditor.RemoveModuleTotal | views/WorkoutEditor.tsx:87-93 | removing takes exactly the removed modules' time off the total |
| WorkoutEditor.TotalTime | views/WorkoutEditor.tsx:95-104 | the label's minutes and seconds recompose the total over the built-in catalog |
| Prepare.AvailableExercises | views/Prepare.tsx:20 | the available exercises are the built-in ones and the custom ones |
| Prepare.CustomFillsGaps | views/Prepare.tsx:39-43 | a built-in exercise's duration wins; a custom one only fills gaps |
| Prepare.UpdateModuleDuration | views/Prepare.tsx:23-29 | the matching modules get the duration, or 0 when negative; non-negative overrides stay so |
| Prepare.Press | views/Prepare.tsx:88-125 | a step button sets the module's effective duration to the shown duration plus the step, never below 0; every module sharing its id gets the same duration, the others are untouched, `lastModified` is stamped and the workout's id, name and days are kept |
| Prepare.PressSplit | views/Prepare.tsx:88-125 | "±1 min" changes only the minutes shown (down to 0 under a minute); "±5" moves the total by five, never below 0 |
| Prepare.PlusThenMinusMinute | views/Prepare.tsx:105-112 | "+1 min" then "-1 min" restores a non-negative duration |
| Prepare.TotalTime | views/Prepare.tsx:39-48 | the label's minutes and seconds recompose the total over the available exercises |
| Prepare.GoLive | views/Prepare.tsx:164-166 | "Go Live" starts the edited workout exactly when it has modules |
| Home.CreateWorkout | views/Home.tsx:47-56 | a new workout is named "New Workout", with no modules and no days |
| Home.Clone | views/Home.tsx:58-64 | a clone keeps the template's modules and days with a new id, time and " (Copy)" name |
| Home.CloneTemplate | views/Home.tsx:58-69 | the clone is appended to the saved workouts |
| Home.CodeChange | views/Home.tsx:91-101 | an upper-cased input of at most one character fills the slot, a longer one changes nothing; a well-formed code stays well-formed |
| Home.LinkedCodeShape | views/Home.tsx:234-235 | a linkable code joins to six upper-case characters that `toUpperCase` keeps |
| Home.NewDisplay | views/Home.tsx:72-77 | a paired display has the upper-cased code as id, is active, is stamped and is numbered after the existing ones |
| Home.Pair | views/Home.tsx:71-83 | pairing appends the new display, resets the code to six empty slots and closes the dialog |
| Home.RemoveDisplay | views/Home.tsx:85-89 | every display with the id goes, the others stay, each as often as before, in order |
| Home.PairThenRemove | views/Home.tsx:71-89 | removing a freshly paired display with a new id restores the list |
| Home.AllScheduledDays | views/Home.tsx:103 | `flatMap` yields exactly the days some workout is scheduled on |
| Home.ScheduledDays | views/Home.tsx:103 | the day list has each scheduled day once and no other |
| Home.ScheduledOn | views/Home.tsx:104 | the day's list holds exactly the workouts scheduled on it |
| Home.ScheduledDaysAgree | views/Home.tsx:103-104 | a day is listed exactly when its workout list is non-empty |
| Home.FindFolder | views/Home.tsx:106 | `find` gives the first folder with the id, and nothing only when none has it |
| Home.FilteredByFolder | views/Home.tsx:105-107 | no active folder lists all; otherwise exactly the workouts of the first folder with the id, each as often as before, in order; none for a missing folder |
| Home.FolderToggleShows | views/Home.tsx:105-107 | after the editor's folder toggle a workout is listed under the folder exactly when it was not a member before |
| Home.InsertKeepsOrder | views/Home.tsx:169 | inserting into a most-recent-first list keeps it ordered and adds exactly one element |
| Home.SortByRecent | views/Home.tsx:169 | the sorted list is most recent first and a permutation of the input |
| App.FindIndex | App.tsx:63 | `findIndex` gives the first position with the id, and nothing only when none has it |
| App.Upsert | App.tsx:61-72 | a save replaces the first stored workout with the id by the time-stamped copy, or appends it; nothing else changes |
| App.UpsertThenFind | App.tsx:61-72 | after a save the id finds exactly the saved copy; saving again replaces it in place |
| App.GetParam | App.tsx:23 | the query value is that of a pair with the key, and missing only when no pair has it |
| App.FirstRoleDecides | App.tsx:23 | only the first `role` parameter decides TV mode |
| App.Render | App.tsx:89-162 | TV mode shows only the station; a view whose workout is missing, and an unknown view, fall back to home |
| App.SelectWorkout | App.tsx:79-82 | choosing a workout opens the preparation screen with it |
| App.PrepareStart | App.tsx:112 | "Go Live" saves the workout and plays it |
| App.PrepareEdit | App.tsx:113 | "Edit" saves the workout and opens the editor on it |
| App.EditorSave | App.tsx:103 | "Save" saves the workout, closes the editor and shows home |
| App.EditorCancel | App.tsx:104 | "Cancel" saves nothing and shows home |
| App.EditorPlay | App.tsx:105 | "Play" from the editor plays without saving |
| App.CloseToHome | App.tsx:114 | closing returns home and keeps the stored list |
| App.GoLiveSavesOnce | App.tsx:61-72 | going live stores exactly one stamped copy: in place when the id exists, appended otherwise |
| WorkoutCard.TotalLabel | components/WorkoutCard.tsx:19-21 | under a minute the seconds; otherwise whole minutes with "min" exactly for 60-119 seconds |
| WorkoutCard.SameMinuteSameLabel | components/WorkoutCard.tsx:20-21 | leftover seconds do not show: totals in the same minute get the same label |
| WorkoutCard.ModuleCountLabel | components/WorkoutCard.tsx:33 | the count reads the number, a space, then "module" exactly for one module and "modules" otherwise |
| WorkoutCard.Thumbnails | components/WorkoutCard.tsx:40-42 | at most three thumbnails, one per leading module, from the catalog |
| WorkoutCard.Badge | components/WorkoutCard.tsx:45-47 | the badge shows exactly beyond three modules |
| WorkoutCard.CardCountsEveryModule | components/WorkoutCard.tsx:40-47 | the thumbnails plus the badge number count every module once |

## Left out

- The PeerJS transport is not modelled: peer creation, `connect`, `destroy`, delivery and errors. The host's connections are a set of ids plus an open flag, and the station receives an ordered stream of messages.
- A display that connects after the last state change waits for the next change: nothing is sent when a channel opens (views/Player.tsx:41-43). The model keeps this.
- Each station handles messages from all its connections in one order; interleavings of several hosts are not modelled.
- Malformed messages (no `type`, or a payload of the wrong shape) are not modelled; `Protocol.Message` carries only well-formed ones.
- `localStorage` and services/storage.ts are not modelled; stored lists and overrides are values passed in. The storage of overrides by the AI flow (App.tsx:36-59) and services/ai.ts are not modelled.
- The modules are written against `MOCK_EXERCISES` from constants.tsx, which exports `STATIC_EXERCISES` (constants.tsx:72). Prepare.tsx:20 calls `storage.getCustomExercises()`, which services/storage.ts:10-19 does not define. Both catalogs are therefore parameters; their contents are not part of this model.
- sw.js (the service worker), the install prompt, Layout and the other presentational components are not part of this model.
- Random ids and `Date.now()` are parameters; the `setTimeout` of the "just added" highlight (views/WorkoutEditor.tsx:41-42) and the library's select animation (views/Library.tsx:32-36) are not modelled.
- The focus move to the next code slot (views/Home.tsx:97-100) is not modelled.
- Progress bars and other floating-point display arithmetic are not modelled.
- The `|| []` fallback for missing scheduled days (views/WorkoutEditor.tsx:46) is not modelled, because the record type makes the days required.
- The station's screen layout is reduced to what it shows: waiting with an id, or exercise, time and pause flag.
- Text.ToUpper: maps ASCII letters only; JavaScript's full Unicode case mapping is not modelled. The same holds for Text.ToLower.
- Player.HostSession.Teardown: does not state the order in which displays are visited (a JavaScript `Map` iterates in insertion order); it states that each registered display is visited once, sent `END_SESSION`, then closed.
- Home.SortByRecent: does not state stability (JavaScript's `sort` keeps equal elements in their original order). The in-place mutation of the `workouts` state array by `.sort` when no folder is active (views/Home.tsx:105-107, 169) is not modelled.
- Player.HostSession.Tick: models the corrected atomic step. The as-written double advance is captured by `Player.CommitAsWritten` and the findings below, not by the class.

## Findings

| source | as written | input that shows it | evidently intended | confidence | as-written member | corrected member |
|---|---|---|---|---|---|---|
| views/Player.tsx:56-69, 84-93 | When module i reaches 0, the timer effect advances the index, but `timeLeft` stays 0 in that render. In the next commit the reset effect loads module i+1's duration, while the timer effect still sees 0 and advances again. | Three modules of 30 s each: when the first reaches 0, the player lands on the third; the second never runs. | Entering a module loads its duration before the zero check runs again, so each module runs once, in order. | not executed | Player.AutoAdvanceSkipsModule | Player.StepMoves |
| views/Player.tsx:89-92 | For the same reason, reaching 0 on the second-to-last module moves to the last one with `timeLeft` 0. In the next commit the reset effect loads the last module's duration and sets its exercise, but the timer effect still sees 0, takes the completion branch and clears the exercise after it. | Two modules of 30 s each: when the first reaches 0, the completion screen appears and the second never plays. | The session completes only after the last module's own countdown. | not executed | Player.AutoAdvanceEndsEarly | Player.CompletionOnlyAtEnd |
| views/Player.tsx:13, 56-69, 84-93 | `timeLeft` starts at 0, so the mount commit's timer effect sees 0. With two or more modules it advances past module 0. With one module it takes the completion branch, which runs after the reset effect and clears the exercise. | A one-module workout shows the completion screen at once; in a two-module workout, module 0 never plays. | The session starts on module 0 with its full duration. | not executed | Player.MountSkipsFirstModule | Player.InitialView |
