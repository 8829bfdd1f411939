/** The host player (views/Player.tsx): a countdown over the workout's modules,
    driven by a one-second timer, with pause, previous/next controls, the set of
    displays it dials, the `SYNC_STATE` it sends to the current module's display
    and the `END_SESSION` it sends to every connection when the session ends.
    The transport is abstract: a set of registered connections and the subset
    whose channel is open. */
module Player {
  import opened Types
  import opened Protocol
  import opened Workouts
  import Library
  import Seqs

  /** `m.displayId === LOCAL_DISPLAY_ID`. */
  predicate IsLocal(m: WorkoutModule)
  {
    m.displayId == LocalDisplayId
  }

  /** `modules.map(m => m.displayId)`. */
  function DisplayIds(modules: seq<WorkoutModule>): (ids: seq<string>)
    ensures forall id :: id in ids <==> exists m :: m in modules && m.displayId == id
  {
    if modules == [] then [] else [modules[0].displayId] + DisplayIds(modules[1..])
  }

  /** `Array.from(new Set(modules.filter(m => m.displayId !== 'local').map(m => m.displayId)))`:
      the displays the host dials when its peer opens. */
  function RemoteDisplayIds(modules: seq<WorkoutModule>): (ids: seq<string>)
    ensures Seqs.NoDuplicates(ids)
    ensures forall id :: id in ids <==> id != LocalDisplayId && exists m :: m in modules && m.displayId == id
  {
    Seqs.Dedup(DisplayIds(Seqs.Filter(modules, m => !IsLocal(m))))
  }

  /** The countdown state: module index, seconds left, pause flag. */
  datatype Timer = Timer(index: nat, timeLeft: int, isPaused: bool)

  /** The effective duration of module `k`. */
  function Duration(modules: seq<WorkoutModule>, catalog: seq<Exercise>, k: nat): int
    requires k < |modules|
  {
    EffectiveDuration(modules[k], catalog)
  }

  predicate NonNegativeDurations(modules: seq<WorkoutModule>, catalog: seq<Exercise>)
  {
    forall k :: 0 <= k < |modules| ==> Duration(modules, catalog, k) >= 0
  }

  /** Entering module `k`: the index moves there and `timeLeft` is reset to the
      module's effective duration (the reset effect at lines 56-65). */
  function Enter(modules: seq<WorkoutModule>, catalog: seq<Exercise>, t: Timer, k: nat): (r: Timer)
    requires k < |modules|
    ensures r.index == k && r.timeLeft == Duration(modules, catalog, k) && r.isPaused == t.isPaused
  {
    Timer(k, Duration(modules, catalog, k), t.isPaused)
  }

  /** The session is over: the last module has reached zero, so the player
      clears its exercise and shows the completion screen. */
  predicate Completed(modules: seq<WorkoutModule>, t: Timer)
  {
    |modules| > 0 && t.index == |modules| - 1 && t.timeLeft == 0
  }

  /** The state before the first tick: module 0 with its full duration. */
  function InitialTimer(modules: seq<WorkoutModule>, catalog: seq<Exercise>): (t: Timer)
    ensures t.index == 0 && !t.isPaused
    ensures |modules| > 0 ==> t.timeLeft == Duration(modules, catalog, 0)
  {
    if |modules| > 0 then Enter(modules, catalog, Timer(0, 0, false), 0) else Timer(0, 0, false)
  }

  /** One firing of the timer effect: a running countdown loses a second; at
      zero the next module is entered, with its duration, in the same step; on
      the last module nothing moves (the session completes). The zero branches
      do not look at the pause flag. */
  function Step(modules: seq<WorkoutModule>, catalog: seq<Exercise>, t: Timer): (r: Timer)
  {
    if !t.isPaused && t.timeLeft > 0 then t.(timeLeft := t.timeLeft - 1)
    else if t.timeLeft == 0 && t.index < |modules| - 1 then Enter(modules, catalog, t, t.index + 1)
    else t
  }

  /** A running tick lowers `timeLeft` by exactly one and keeps the module;
      at zero the index moves by exactly one and the new module's duration is
      loaded; the index never leaves the workout and never moves backwards. */
  lemma StepMoves(modules: seq<WorkoutModule>, catalog: seq<Exercise>, t: Timer)
    requires t.index < |modules|
    ensures var r := Step(modules, catalog, t);
      && r.index < |modules|
      && r.isPaused == t.isPaused
      && (!t.isPaused && t.timeLeft > 0 ==> r.index == t.index && r.timeLeft == t.timeLeft - 1)
      && (t.timeLeft == 0 && t.index < |modules| - 1 ==>
            r.index == t.index + 1 && r.timeLeft == Duration(modules, catalog, t.index + 1))
      && (r.index == t.index || r.index == t.index + 1)
  {
  }

  /** `timeLeft` never becomes negative when no module has a negative duration. */
  lemma StepNonNegative(modules: seq<WorkoutModule>, catalog: seq<Exercise>, t: Timer)
    requires NonNegativeDurations(modules, catalog)
    requires t.timeLeft >= 0
    ensures Step(modules, catalog, t).timeLeft >= 0
  {
  }

  /** While paused with time left, nothing moves. */
  lemma PausedIsFrozen(modules: seq<WorkoutModule>, catalog: seq<Exercise>, t: Timer)
    requires t.isPaused && t.timeLeft > 0
    ensures Step(modules, catalog, t) == t
  {
  }

  /** Pausing does not hold back the advance at zero. */
  lemma ZeroAdvancesEvenWhenPaused(modules: seq<WorkoutModule>, catalog: seq<Exercise>, t: Timer)
    requires t.timeLeft == 0 && t.index < |modules| - 1
    ensures Step(modules, catalog, t) == Step(modules, catalog, t.(isPaused := !t.isPaused)).(isPaused := t.isPaused)
  {
  }

  /** A completed session stays completed. */
  lemma CompletedIsFinal(modules: seq<WorkoutModule>, catalog: seq<Exercise>, t: Timer)
    requires Completed(modules, t)
    ensures Step(modules, catalog, t) == t
  {
  }

  /** A negative `timeLeft` (from a negative duration in the data) matches
      neither the running branch nor the zero branches: the session stalls. */
  lemma {:induction false} NegativeTimeStalls(modules: seq<WorkoutModule>, catalog: seq<Exercise>, t: Timer, k: nat)
    requires t.timeLeft < 0
    ensures Run(modules, catalog, t, k) == t
    decreases k
  {
    if k > 0 {
      NegativeTimeStalls(modules, catalog, t, k - 1);
    }
  }

  /** `k` firings of the timer effect. */
  function Run(modules: seq<WorkoutModule>, catalog: seq<Exercise>, t: Timer, k: nat): Timer
    decreases k
  {
    if k == 0 then t else Run(modules, catalog, Step(modules, catalog, t), k - 1)
  }

  lemma {:induction false} RunAdd(modules: seq<WorkoutModule>, catalog: seq<Exercise>, t: Timer, a: nat, b: nat)
    ensures Run(modules, catalog, t, a + b) == Run(modules, catalog, Run(modules, catalog, t, a), b)
    decreases a
  {
    if a > 0 {
      RunAdd(modules, catalog, Step(modules, catalog, t), a - 1, b);
    }
  }

  /** A running countdown loses exactly one second per tick and stays on its module. */
  lemma {:induction false} RunCountsDown(modules: seq<WorkoutModule>, catalog: seq<Exercise>, t: Timer, k: nat)
    requires !t.isPaused && k <= t.timeLeft
    ensures Run(modules, catalog, t, k) == t.(timeLeft := t.timeLeft - k)
    decreases k
  {
    if k > 0 {
      RunCountsDown(modules, catalog, t.(timeLeft := t.timeLeft - 1), k - 1);
    }
  }

  /** Firings needed from module `k` onwards: one to enter each later module
      plus its duration. */
  function StepsFrom(modules: seq<WorkoutModule>, catalog: seq<Exercise>, k: nat): int
    decreases |modules| - k
  {
    if k >= |modules| then 0
    else 1 + Duration(modules, catalog, k) + StepsFrom(modules, catalog, k + 1)
  }

  lemma {:induction false} StepsFromNonNegative(modules: seq<WorkoutModule>, catalog: seq<Exercise>, k: nat)
    requires NonNegativeDurations(modules, catalog)
    ensures StepsFrom(modules, catalog, k) >= 0
    decreases |modules| - k
  {
    if k < |modules| {
      StepsFromNonNegative(modules, catalog, k + 1);
    }
  }

  /** From the zero of a module that is not the last, the following firings
      run from the entry into the next module. */
  lemma RunPastModule(modules: seq<WorkoutModule>, catalog: seq<Exercise>, t: Timer, j: nat)
    requires !t.isPaused && t.timeLeft >= 0 && t.index < |modules| - 1 && j > t.timeLeft
    ensures Run(modules, catalog, t, j) == Run(modules, catalog, Enter(modules, catalog, t, t.index + 1), j - t.timeLeft - 1)
  {
    RunAdd(modules, catalog, t, t.timeLeft, j - t.timeLeft);
    RunCountsDown(modules, catalog, t, t.timeLeft);
    var atZero := t.(timeLeft := 0);
    RunAdd(modules, catalog, atZero, 1, j - t.timeLeft - 1);
    assert Run(modules, catalog, atZero, 1) == Enter(modules, catalog, t, t.index + 1);
  }

  /** An unpaused session completes after exactly the remaining time plus one
      firing per module change, and not a firing earlier. */
  lemma {:induction false} RunCompletes(modules: seq<WorkoutModule>, catalog: seq<Exercise>, t: Timer)
    requires NonNegativeDurations(modules, catalog)
    requires !t.isPaused && t.index < |modules| && t.timeLeft >= 0
    ensures StepsFrom(modules, catalog, t.index + 1) >= 0
    ensures var n := t.timeLeft + StepsFrom(modules, catalog, t.index + 1);
      && Completed(modules, Run(modules, catalog, t, n))
      && forall j :: 0 <= j < n ==> !Completed(modules, Run(modules, catalog, t, j))
    decreases |modules| - t.index
  {
    StepsFromNonNegative(modules, catalog, t.index + 1);
    var n := t.timeLeft + StepsFrom(modules, catalog, t.index + 1);
    if t.index == |modules| - 1 {
      RunCountsDown(modules, catalog, t, t.timeLeft);
      forall j | 0 <= j < n
        ensures !Completed(modules, Run(modules, catalog, t, j))
      {
        RunCountsDown(modules, catalog, t, j);
      }
    } else {
      var next := Enter(modules, catalog, t, t.index + 1);
      RunCompletes(modules, catalog, next);
      var m := next.timeLeft + StepsFrom(modules, catalog, next.index + 1);
      assert n == t.timeLeft + 1 + m;
      RunPastModule(modules, catalog, t, n);
      forall j | 0 <= j < n
        ensures !Completed(modules, Run(modules, catalog, t, j))
      {
        if j <= t.timeLeft {
          RunCountsDown(modules, catalog, t, j);
        } else {
          RunPastModule(modules, catalog, t, j);
        }
      }
    }
  }

  /** An unpaused session enters each later module `k`, with its full duration,
      within the firings `RunCompletes` counts (the bound is reached only when
      the last module lasts 0 seconds). */
  lemma {:induction false} RunEntersModule(modules: seq<WorkoutModule>, catalog: seq<Exercise>, t: Timer, k: nat)
    requires NonNegativeDurations(modules, catalog)
    requires !t.isPaused && t.index < k < |modules| && t.timeLeft >= 0
    ensures exists j :: 0 < j <= t.timeLeft + StepsFrom(modules, catalog, t.index + 1)
                        && Run(modules, catalog, t, j) == Enter(modules, catalog, t, k)
    decreases |modules| - t.index
  {
    var next := Enter(modules, catalog, t, t.index + 1);
    StepsFromNonNegative(modules, catalog, t.index + 2);
    var n := t.timeLeft + StepsFrom(modules, catalog, t.index + 1);
    assert n == t.timeLeft + 1 + next.timeLeft + StepsFrom(modules, catalog, next.index + 1);
    RunPastModule(modules, catalog, t, t.timeLeft + 1);
    if k == t.index + 1 {
      assert Run(modules, catalog, t, t.timeLeft + 1) == Enter(modules, catalog, t, k);
    } else {
      RunEntersModule(modules, catalog, next, k);
      var j' :| 0 < j' <= next.timeLeft + StepsFrom(modules, catalog, next.index + 1)
                && Run(modules, catalog, next, j') == Enter(modules, catalog, next, k);
      RunPastModule(modules, catalog, t, t.timeLeft + 1 + j');
      assert Run(modules, catalog, t, t.timeLeft + 1 + j') == Enter(modules, catalog, t, k);
    }
  }

  /** Later modules are entered later: the modules are visited in order. */
  lemma EntriesInOrder(modules: seq<WorkoutModule>, catalog: seq<Exercise>, t: Timer, k1: nat, k2: nat, j1: nat, j2: nat)
    requires k1 < k2 < |modules|
    requires Run(modules, catalog, t, j1) == Enter(modules, catalog, t, k1)
    requires Run(modules, catalog, t, j2) == Enter(modules, catalog, t, k2)
    ensures j1 < j2
  {
    if j2 <= j1 {
      RunIndexMonotone(modules, catalog, t, j2, j1);
    }
  }

  /** The index never moves backwards over firings. */
  lemma {:induction false} RunIndexGrows(modules: seq<WorkoutModule>, catalog: seq<Exercise>, t: Timer, k: nat)
    ensures Run(modules, catalog, t, k).index >= t.index
    decreases k
  {
    if k > 0 {
      RunIndexGrows(modules, catalog, Step(modules, catalog, t), k - 1);
    }
  }

  lemma RunIndexMonotone(modules: seq<WorkoutModule>, catalog: seq<Exercise>, t: Timer, a: nat, b: nat)
    requires a <= b
    ensures Run(modules, catalog, t, a).index <= Run(modules, catalog, t, b).index
  {
    RunAdd(modules, catalog, t, a, b - a);
    RunIndexGrows(modules, catalog, Run(modules, catalog, t, a), b - a);
  }

  /** The "next" control: disabled on the last module, otherwise enters the
      following module. The controls exist only while a module is current. */
  function SkipNext(modules: seq<WorkoutModule>, catalog: seq<Exercise>, t: Timer): (r: Timer)
    requires t.index < |modules|
    ensures r.index < |modules|
  {
    if t.index == |modules| - 1 then t else Enter(modules, catalog, t, t.index + 1)
  }

  /** The "previous" control: disabled on the first module, otherwise enters
      the preceding module. */
  function SkipPrev(modules: seq<WorkoutModule>, catalog: seq<Exercise>, t: Timer): (r: Timer)
    requires t.index < |modules|
    ensures r.index < |modules|
  {
    if t.index == 0 then t else Enter(modules, catalog, t, t.index - 1)
  }

  /** Skips are no-ops at the ends and otherwise move by exactly one module with
      a fresh countdown; going forward then back re-enters the same module with
      its full duration. */
  lemma SkipRoundTrip(modules: seq<WorkoutModule>, catalog: seq<Exercise>, t: Timer)
    requires t.index < |modules|
    ensures t.index == 0 ==> SkipPrev(modules, catalog, t) == t
    ensures t.index == |modules| - 1 ==> SkipNext(modules, catalog, t) == t
    ensures t.index > 0 ==> SkipPrev(modules, catalog, t).index == t.index - 1
    ensures t.index < |modules| - 1 ==> SkipNext(modules, catalog, t).index == t.index + 1
    ensures t.index < |modules| - 1 ==>
      SkipPrev(modules, catalog, SkipNext(modules, catalog, t)) == Enter(modules, catalog, t, t.index)
  {
  }

  // ---------------------------------------------------------------------------
  // The exercise shown. The player renders the completion screen when there
  // is no current module or no exercise (line 101); the exercise is set by
  // the reset effect on entering a module and cleared by the timer effect at
  // the end.

  /** The exercise a module resolves to: the catalog entry with its id, replaced
      by the stored override for that id if there is one. */
  function ResolveExercise(catalog: seq<Exercise>, overrides: map<string, Exercise>, m: WorkoutModule): (r: Option<Exercise>)
    ensures r.None? <==> FindExercise(catalog, m.exerciseId).None?
  {
    match FindExercise(catalog, m.exerciseId)
    case Some(base) => Some(Library.ApplyOverride(overrides, base))
    case None => None
  }

  /** With overrides stored under their own id, the player shows what the
      library lists: the first entry with the id in the merged catalog. */
  lemma {:induction false} ResolveMatchesLibrary(catalog: seq<Exercise>, overrides: map<string, Exercise>, m: WorkoutModule)
    requires Library.KeyedById(overrides)
    ensures ResolveExercise(catalog, overrides, m) == FindExercise(Library.MergeOverrides(catalog, overrides), m.exerciseId)
  {
    if catalog != [] {
      var merged := Library.MergeOverrides(catalog, overrides);
      assert merged[1..] == Library.MergeOverrides(catalog[1..], overrides);
      assert merged[0].id == catalog[0].id;
      ResolveMatchesLibrary(catalog[1..], overrides, m);
    }
  }

  /** `setExercise` on entering a module: only when the catalog has its exercise;
      otherwise the previous exercise stays. */
  function EnteredExercise(catalog: seq<Exercise>, overrides: map<string, Exercise>, m: WorkoutModule, previous: Option<Exercise>): Option<Exercise>
  {
    var r := ResolveExercise(catalog, overrides, m);
    if r.Some? then r else previous
  }

  /** What the host does on a data channel. */
  datatype ChannelEvent = Sent(id: string, msg: Message) | Closed(id: string)

  /** The channel operations of a teardown that visits `ids` in turn: each is
      sent `END_SESSION`, then closed. */
  function TeardownTrace(ids: seq<string>): seq<ChannelEvent>
  {
    if ids == [] then []
    else TeardownTrace(ids[..|ids| - 1]) + [Sent(ids[|ids| - 1], EndSession), Closed(ids[|ids| - 1])]
  }

  lemma TeardownTraceSnoc(ids: seq<string>, id: string)
    ensures TeardownTrace(ids + [id]) == TeardownTrace(ids) + [Sent(id, EndSession), Closed(id)]
  {
    assert (ids + [id])[..|ids|] == ids;
  }

  /** In a teardown trace every visited display is sent `END_SESSION` right
      before its channel is closed, and nothing else happens. */
  lemma {:induction false} TeardownTraceShape(ids: seq<string>)
    ensures |TeardownTrace(ids)| == 2 * |ids|
    ensures forall k :: 0 <= k < |ids| ==>
      TeardownTrace(ids)[2 * k] == Sent(ids[k], EndSession) && TeardownTrace(ids)[2 * k + 1] == Closed(ids[k])
  {
    if ids != [] {
      var front := ids[..|ids| - 1];
      TeardownTraceShape(front);
      forall k | 0 <= k < |ids|
        ensures TeardownTrace(ids)[2 * k] == Sent(ids[k], EndSession) && TeardownTrace(ids)[2 * k + 1] == Closed(ids[k])
      {
        if k < |front| {
          assert front[k] == ids[k];
        }
      }
    }
  }

  /** The rendered state of the player: the countdown and the exercise. */
  datatype View = View(timer: Timer, exercise: Option<Exercise>)

  /** `!currentModule || !exercise`: the "Workout Complete!" screen. */
  predicate ShowsCompletion(modules: seq<WorkoutModule>, v: View)
  {
    v.timer.index >= |modules| || v.exercise.None?
  }

  /** The state before the first tick: `InitialTimer` and module 0's exercise. */
  function InitialView(modules: seq<WorkoutModule>, catalog: seq<Exercise>, overrides: map<string, Exercise>): (v: View)
    ensures v.timer == InitialTimer(modules, catalog)
    ensures |modules| > 0 && FindExercise(catalog, modules[0].exerciseId).Some? ==> !ShowsCompletion(modules, v)
  {
    View(InitialTimer(modules, catalog), if |modules| > 0 then ResolveExercise(catalog, overrides, modules[0]) else None)
  }

  /** The corrected step on the rendered state: `Step` on the countdown; the
      exercise of a newly entered module is resolved, and the exercise is
      cleared only when the session is completed. */
  function StepView(modules: seq<WorkoutModule>, catalog: seq<Exercise>, overrides: map<string, Exercise>, v: View): (r: View)
    ensures r.timer == Step(modules, catalog, v.timer)
    ensures r.exercise.None? ==> Completed(modules, v.timer) || v.exercise.None?
    ensures Completed(modules, v.timer) ==> ShowsCompletion(modules, r)
  {
    var next := Step(modules, catalog, v.timer);
    View(next,
      if Completed(modules, v.timer) then None
      else if next.index != v.timer.index then EnteredExercise(catalog, overrides, modules[next.index], v.exercise)
      else v.exercise)
  }

  /** `k` firings of the corrected step. */
  function RunView(modules: seq<WorkoutModule>, catalog: seq<Exercise>, overrides: map<string, Exercise>, v: View, k: nat): View
    decreases k
  {
    if k == 0 then v else RunView(modules, catalog, overrides, StepView(modules, catalog, overrides, v), k - 1)
  }

  lemma {:induction false} RunViewTimer(modules: seq<WorkoutModule>, catalog: seq<Exercise>, overrides: map<string, Exercise>, v: View, k: nat)
    ensures RunView(modules, catalog, overrides, v, k).timer == Run(modules, catalog, v.timer, k)
    ensures RunView(modules, catalog, overrides, v, k + 1) == StepView(modules, catalog, overrides, RunView(modules, catalog, overrides, v, k))
    decreases k
  {
    if k > 0 {
      RunViewTimer(modules, catalog, overrides, StepView(modules, catalog, overrides, v), k - 1);
    }
  }

  /** The exercise stays shown, and the index in range, as long as no earlier
      state was completed. */
  lemma {:induction false} ExerciseKept(modules: seq<WorkoutModule>, catalog: seq<Exercise>, overrides: map<string, Exercise>, v: View, k: nat)
    requires v.exercise.Some? && v.timer.index < |modules|
    requires forall i :: 0 <= i < k ==> !Completed(modules, Run(modules, catalog, v.timer, i))
    ensures !ShowsCompletion(modules, RunView(modules, catalog, overrides, v, k))
    decreases k
  {
    if k > 0 {
      var next := StepView(modules, catalog, overrides, v);
      assert !Completed(modules, Run(modules, catalog, v.timer, 0));
      StepMoves(modules, catalog, v.timer);
      forall i | 0 <= i < k - 1
        ensures !Completed(modules, Run(modules, catalog, next.timer, i))
      {
        assert Run(modules, catalog, v.timer, i + 1) == Run(modules, catalog, next.timer, i);
      }
      ExerciseKept(modules, catalog, overrides, next, k - 1);
    }
  }

  /** With the corrected step an unpaused session that shows an exercise keeps
      showing one through the `n` firings `RunCompletes` counts, and shows the
      completion screen on the next firing. */
  lemma CompletionOnlyAtEnd(modules: seq<WorkoutModule>, catalog: seq<Exercise>, overrides: map<string, Exercise>, v: View)
    requires NonNegativeDurations(modules, catalog)
    requires !v.timer.isPaused && v.timer.index < |modules| && v.timer.timeLeft >= 0 && v.exercise.Some?
    ensures StepsFrom(modules, catalog, v.timer.index + 1) >= 0
    ensures var n := v.timer.timeLeft + StepsFrom(modules, catalog, v.timer.index + 1);
      && (forall j :: 0 <= j <= n ==> !ShowsCompletion(modules, RunView(modules, catalog, overrides, v, j)))
      && ShowsCompletion(modules, RunView(modules, catalog, overrides, v, n + 1))
  {
    RunCompletes(modules, catalog, v.timer);
    var n := v.timer.timeLeft + StepsFrom(modules, catalog, v.timer.index + 1);
    forall j | 0 <= j <= n
      ensures !ShowsCompletion(modules, RunView(modules, catalog, overrides, v, j))
    {
      ExerciseKept(modules, catalog, overrides, v, j);
    }
    RunViewTimer(modules, catalog, overrides, v, n);
  }

  // ---------------------------------------------------------------------------
  // The effects as written. In the source the reset effect (lines 56-69) and
  // the timer effect (lines 84-93) run in the same commit, in that order, and
  // both read the values rendered before it; their state updates are applied
  // afterwards in the order they were made.

  /** One commit of the two effects. The reset runs when the index changed: it
      sets the exercise of the module (or clears it without a module) and
      loads the module's duration. The timer effect reads the rendered
      `timeLeft`: while it is positive and running it only starts the interval;
      at zero it moves the index on, or on the last module clears the exercise,
      and that clearing comes after the reset's `setExercise`. */
  function CommitAsWritten(modules: seq<WorkoutModule>, catalog: seq<Exercise>, overrides: map<string, Exercise>, v: View, indexChanged: bool): View
  {
    var t := v.timer;
    var resetTime := if indexChanged && t.index < |modules| then Duration(modules, catalog, t.index) else t.timeLeft;
    var resetExercise :=
      if !indexChanged then v.exercise
      else if t.index < |modules| then EnteredExercise(catalog, overrides, modules[t.index], v.exercise)
      else None;
    if !t.isPaused && t.timeLeft > 0 then View(t.(timeLeft := resetTime), resetExercise)
    else if t.timeLeft == 0 && t.index < |modules| - 1 then View(Timer(t.index + 1, resetTime, t.isPaused), resetExercise)
    else if t.timeLeft == 0 && t.index == |modules| - 1 then View(t.(timeLeft := resetTime), None)
    else View(t.(timeLeft := resetTime), resetExercise)
  }

  /** As written, reaching zero on module `i` moves to `i + 1` with `timeLeft`
      still 0; the next commit resets it but also sees that 0 and moves on to
      `i + 2`, so module `i + 1` never runs. The corrected step enters `i + 1`
      with its own duration. */
  lemma AutoAdvanceSkipsModule(modules: seq<WorkoutModule>, catalog: seq<Exercise>, overrides: map<string, Exercise>, i: nat, paused: bool, e: Option<Exercise>)
    requires i + 2 < |modules|
    ensures var reachedZero := CommitAsWritten(modules, catalog, overrides, View(Timer(i, 0, paused), e), false);
      var next := CommitAsWritten(modules, catalog, overrides, reachedZero, true);
      && reachedZero.timer == Timer(i + 1, 0, paused)
      && next.timer == Timer(i + 2, Duration(modules, catalog, i + 1), paused)
    ensures StepView(modules, catalog, overrides, View(Timer(i, 0, paused), e)).timer
         == Timer(i + 1, Duration(modules, catalog, i + 1), paused)
  {
  }

  /** As written, reaching zero on the second-to-last module moves to the last
      one with `timeLeft` still 0. In the next commit the reset loads the last
      module's duration and exercise, but the timer effect, which still sees
      0, clears the exercise after it: the completion screen comes up while
      the last module's countdown is loaded, and stays up. The corrected step
      enters the last module and keeps an exercise shown. */
  lemma AutoAdvanceEndsEarly(modules: seq<WorkoutModule>, catalog: seq<Exercise>, overrides: map<string, Exercise>, paused: bool, e: Option<Exercise>)
    requires |modules| >= 2
    ensures var last := |modules| - 1;
      var reachedZero := CommitAsWritten(modules, catalog, overrides, View(Timer(last - 1, 0, paused), e), false);
      var next := CommitAsWritten(modules, catalog, overrides, reachedZero, true);
      && reachedZero.timer == Timer(last, 0, paused)
      && next.timer == Timer(last, Duration(modules, catalog, last), paused)
      && ShowsCompletion(modules, next)
      && ShowsCompletion(modules, CommitAsWritten(modules, catalog, overrides, next, false))
    ensures e.Some? ==>
      var corrected := StepView(modules, catalog, overrides, View(Timer(|modules| - 2, 0, paused), e));
      && corrected.timer == Timer(|modules| - 1, Duration(modules, catalog, |modules| - 1), paused)
      && !ShowsCompletion(modules, corrected)
  {
  }

  /** As written, the mount commit renders `timeLeft = 0` (its initial state)
      and runs every effect: with a second module the index moves past module
      0 at once; with one module the reset sets the exercise and loads the
      duration, and the timer effect clears the exercise after it, so the
      completion screen shows at once. Starting from `InitialView`, a module 0
      whose exercise is in the catalog is shown. */
  lemma MountSkipsFirstModule(modules: seq<WorkoutModule>, catalog: seq<Exercise>, overrides: map<string, Exercise>)
    requires |modules| >= 1
    ensures var first := CommitAsWritten(modules, catalog, overrides, View(Timer(0, 0, false), None), true);
      && (|modules| >= 2 ==> first.timer.index == 1)
      && (|modules| == 1 ==> first.timer == Timer(0, Duration(modules, catalog, 0), false) && ShowsCompletion(modules, first))
    ensures FindExercise(catalog, modules[0].exerciseId).Some? ==>
      && InitialView(modules, catalog, overrides).timer.index == 0
      && !ShowsCompletion(modules, InitialView(modules, catalog, overrides))
  {
  }

  class HostSession {
    const modules: seq<WorkoutModule>
    const catalog: seq<Exercise>
    const overrides: map<string, Exercise>
    var index: nat
    var timeLeft: int
    var isPaused: bool
    var exercise: Option<Exercise>
    /** The keys of the connection map. */
    var connections: set<string>
    /** The registered connections whose channel is open. */
    var open: set<string>

    function Clock(): Timer
      reads this
    {
      Timer(index, timeLeft, isPaused)
    }

    function Current(): View
      reads this
    {
      View(Clock(), exercise)
    }

    ghost predicate Valid()
      reads this
    {
      && (if |modules| == 0 then index == 0 else index < |modules|)
      && (NonNegativeDurations(modules, catalog) ==> timeLeft >= 0)
      && open <= connections
      && (forall id :: id in connections ==> id in RemoteDisplayIds(modules))
    }

    /** The player view is on a module and has its exercise: the controls show. */
    predicate ControlsShown()
      reads this
    {
      index < |modules| && exercise.Some?
    }

    constructor (modules: seq<WorkoutModule>, catalog: seq<Exercise>, overrides: map<string, Exercise>)
      ensures Valid()
      ensures this.modules == modules && this.catalog == catalog && this.overrides == overrides
      ensures Current() == InitialView(modules, catalog, overrides)
      ensures connections == {} && open == {}
    {
      this.modules := modules;
      this.catalog := catalog;
      this.overrides := overrides;
      var t := InitialTimer(modules, catalog);
      index, timeLeft, isPaused := t.index, t.timeLeft, t.isPaused;
      exercise := if |modules| > 0 then ResolveExercise(catalog, overrides, modules[0]) else None;
      connections, open := {}, {};
    }

    /** One firing of the timer effect. On the last module at zero the exercise
        is cleared (completion screen); on entering a module it is resolved. */
    method Tick()
      requires Valid()
      modifies this
      ensures Valid()
      ensures Current() == StepView(modules, catalog, overrides, old(Current()))
      ensures connections == old(connections) && open == old(open)
    {
      if !isPaused && timeLeft > 0 {
        timeLeft := timeLeft - 1;
      } else if timeLeft == 0 && index < |modules| - 1 {
        index := index + 1;
        timeLeft := Duration(modules, catalog, index);
        exercise := EnteredExercise(catalog, overrides, modules[index], exercise);
      } else if timeLeft == 0 && |modules| > 0 && index == |modules| - 1 {
        exercise := None;
      }
    }

    /** The pause button. */
    method TogglePause()
      requires Valid()
      modifies this
      ensures Valid()
      ensures ControlsShown() == old(ControlsShown())
      ensures old(ControlsShown()) ==> Clock() == old(Clock()).(isPaused := !old(isPaused))
      ensures !old(ControlsShown()) ==> Clock() == old(Clock())
      ensures exercise == old(exercise) && connections == old(connections) && open == old(open)
    {
      if ControlsShown() {
        isPaused := !isPaused;
      }
    }

    /** The "next" button. */
    method Next()
      requires Valid()
      modifies this
      ensures Valid()
      ensures old(ControlsShown()) ==> Clock() == SkipNext(modules, catalog, old(Clock()))
      ensures !old(ControlsShown()) ==> Clock() == old(Clock())
      ensures exercise == if index != old(index) then EnteredExercise(catalog, overrides, modules[index], old(exercise)) else old(exercise)
      ensures connections == old(connections) && open == old(open)
    {
      if ControlsShown() && index != |modules| - 1 {
        index := index + 1;
        timeLeft := Duration(modules, catalog, index);
        exercise := EnteredExercise(catalog, overrides, modules[index], exercise);
      }
    }

    /** The "previous" button. */
    method Prev()
      requires Valid()
      modifies this
      ensures Valid()
      ensures old(ControlsShown()) ==> Clock() == SkipPrev(modules, catalog, old(Clock()))
      ensures !old(ControlsShown()) ==> Clock() == old(Clock())
      ensures exercise == if index != old(index) then EnteredExercise(catalog, overrides, modules[index], old(exercise)) else old(exercise)
      ensures connections == old(connections) && open == old(open)
    {
      if ControlsShown() && index != 0 {
        index := index - 1;
        timeLeft := Duration(modules, catalog, index);
        exercise := EnteredExercise(catalog, overrides, modules[index], exercise);
      }
    }

    /** A dialled display's channel opened: `connectionsRef.current.set(id, conn)`.
        Only displays from `RemoteDisplayIds` are ever dialled. */
    method ChannelOpened(id: string)
      requires Valid() && id in RemoteDisplayIds(modules)
      modifies this
      ensures Valid()
      ensures connections == old(connections) + {id} && open == old(open) + {id}
      ensures Clock() == old(Clock()) && exercise == old(exercise)
    {
      connections := connections + {id};
      open := open + {id};
    }

    /** The transport reports a channel closed; the map entry stays. */
    method ChannelClosed(id: string)
      requires Valid()
      modifies this
      ensures Valid()
      ensures connections == old(connections) && open == old(open) - {id}
      ensures Clock() == old(Clock()) && exercise == old(exercise)
    {
      open := open - {id};
    }

    /** The display that receives `SYNC_STATE` after a change of the exercise,
        `timeLeft` or the pause flag: the current module's display, when the
        player has an exercise, the display is not local (and not empty), and
        its connection is registered and open. */
    function SyncTarget(): (target: Option<string>)
      reads this
      requires Valid()
      ensures target.Some? <==>
        exercise.Some? && index < |modules| && !IsLocal(modules[index])
        && modules[index].displayId != "" && modules[index].displayId in open
      ensures target.Some? ==> target.value == modules[index].displayId
      ensures target.Some? ==> target.value in connections && target.value in RemoteDisplayIds(modules)
    {
      if exercise.Some? && index < |modules| && !IsLocal(modules[index])
         && modules[index].displayId != "" && modules[index].displayId in open
      then Some(modules[index].displayId)
      else None
    }

    /** The message sent to `SyncTarget()`. */
    function SyncMessage(): (msg: Message)
      reads this
      requires exercise.Some?
      ensures msg.SyncState? && msg.payload.timeLeft == timeLeft && msg.payload.isPaused == isPaused
      ensures msg.payload.exercise == exercise.value
    {
      SyncState(Payload(exercise.value, timeLeft, isPaused))
    }

    /** The cleanup of the connection effect: every registered connection, in
        turn, is sent `END_SESSION` and then closed. Returns the displays
        visited and the trace of what was done on their channels. A channel
        already closed by the transport is still sent the message; delivery is
        not modelled. */
    method Teardown() returns (notified: seq<string>, events: seq<ChannelEvent>)
      requires Valid()
      modifies this
      ensures Valid()
      ensures Seqs.NoDuplicates(notified)
      ensures forall id :: id in notified <==> id in old(connections)
      ensures events == TeardownTrace(notified)
      ensures open == {} && connections == old(connections)
      ensures Clock() == old(Clock()) && exercise == old(exercise)
    {
      var pending := connections;
      notified, events := [], [];
      while pending != {}
        invariant pending <= connections
        invariant forall id :: id in notified <==> id in connections && id !in pending
        invariant Seqs.NoDuplicates(notified)
        invariant events == TeardownTrace(notified)
        invariant open <= pending
        invariant index == old(index) && timeLeft == old(timeLeft) && isPaused == old(isPaused)
        invariant exercise == old(exercise) && connections == old(connections)
        decreases pending
      {
        var id :| id in pending;
        TeardownTraceSnoc(notified, id);
        Seqs.NoDuplicatesSnoc(notified, id);
        notified := notified + [id];
        events := events + [Sent(id, EndSession), Closed(id)];
        open := open - {id};
        pending := pending - {id};
      }
    }
  }
}
