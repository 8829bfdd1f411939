/** The preparation screen (views/Prepare.tsx): a last look at a workout before
    it goes live, where each module's display and duration can be changed with
    minute and five-second steps. Its catalog is the built-in exercises followed
    by the user's custom ones. The re-assignment of a module's display is the
    editor's (`WorkoutEditor.UpdateModuleDisplay`, the same expression). */
module Prepare {
  import opened Types
  import opened Workouts

  /** `[...builtIn, ...custom]`. */
  function AvailableExercises(builtIn: seq<Exercise>, custom: seq<Exercise>): (r: seq<Exercise>)
    ensures forall e :: e in r <==> e in builtIn || e in custom
  {
    builtIn + custom
  }

  /** A custom exercise only fills gaps: a module whose exercise is built in
      keeps the built-in duration, and otherwise the first custom match counts. */
  lemma CustomFillsGaps(m: WorkoutModule, builtIn: seq<Exercise>, custom: seq<Exercise>)
    ensures FindExercise(builtIn, m.exerciseId).Some? ==>
      EffectiveDuration(m, AvailableExercises(builtIn, custom)) == EffectiveDuration(m, builtIn)
    ensures FindExercise(builtIn, m.exerciseId).None? ==>
      EffectiveDuration(m, AvailableExercises(builtIn, custom)) == EffectiveDuration(m, custom)
  {
    FindExerciseInConcat(builtIn, custom, m.exerciseId);
  }

  /** `updateModuleDuration`, clamped below at 0. */
  function UpdateModuleDuration(w: Workout, moduleId: string, totalSeconds: int, now: int): (r: Workout)
    ensures |r.modules| == |w.modules|
    ensures forall i :: 0 <= i < |r.modules| && w.modules[i].id == moduleId ==>
      r.modules[i] == w.modules[i].(duration := Some(if totalSeconds < 0 then 0 else totalSeconds))
    ensures forall i :: 0 <= i < |r.modules| && w.modules[i].id != moduleId ==> r.modules[i] == w.modules[i]
    ensures NonNegativeOverrides(w.modules) ==> NonNegativeOverrides(r.modules)
    ensures r.lastModified == now && r.id == w.id && r.name == w.name && r.scheduledDays == w.scheduledDays
  {
    var clamped := if totalSeconds < 0 then 0 else totalSeconds;
    var r := w.(modules := SetDuration(w.modules, moduleId, clamped), lastModified := now);
    assert NonNegativeOverrides(w.modules) ==> NonNegativeOverrides(r.modules) by {
      if NonNegativeOverrides(w.modules) {
        forall m | m in r.modules && m.duration.Some?
          ensures m.duration.value >= 0
        {
          var i :| 0 <= i < |r.modules| && r.modules[i] == m;
          assert w.modules[i] in w.modules;
        }
      }
    }
    r
  }

  /** The four step buttons beside each module. */
  datatype Button = MinusMinute | PlusMinute | MinusFive | PlusFive

  function Delta(b: Button): int
  {
    match b
    case MinusMinute => -60
    case PlusMinute => 60
    case MinusFive => -5
    case PlusFive => 5
  }

  /** A step button on module `k`: its shown duration plus the step, written back
      through `UpdateModuleDuration` for the module's id. */
  function Press(w: Workout, catalog: seq<Exercise>, k: nat, b: Button, now: int): (r: Workout)
    requires k < |w.modules|
    ensures |r.modules| == |w.modules|
    ensures EffectiveDuration(r.modules[k], catalog) == Clamp0(EffectiveDuration(w.modules[k], catalog) + Delta(b))
    ensures forall i :: 0 <= i < |r.modules| && w.modules[i].id == w.modules[k].id ==>
      r.modules[i] == w.modules[i].(duration := r.modules[k].duration)
    ensures forall i :: 0 <= i < |r.modules| && w.modules[i].id != w.modules[k].id ==> r.modules[i] == w.modules[i]
    ensures r.lastModified == now && r.id == w.id && r.name == w.name && r.scheduledDays == w.scheduledDays
  {
    UpdateModuleDuration(w, w.modules[k].id, EffectiveDuration(w.modules[k], catalog) + Delta(b), now)
  }

  function Clamp0(x: int): int
  {
    if x < 0 then 0 else x
  }

  /** On a non-negative duration, "+1 min" adds one to the minutes shown and
      keeps the seconds; "-1 min" undoes it, and on less than a minute goes to
      zero; "+5"/"-5" move the total by five seconds, never below zero. */
  lemma PressSplit(w: Workout, catalog: seq<Exercise>, k: nat, now: int)
    requires k < |w.modules|
    requires EffectiveDuration(w.modules[k], catalog) >= 0
    ensures var d := EffectiveDuration(w.modules[k], catalog);
      var after := (b: Button) => EffectiveDuration(Press(w, catalog, k, b, now).modules[k], catalog);
      && MinutesSeconds(after(PlusMinute)) == (MinutesSeconds(d).0 + 1, MinutesSeconds(d).1)
      && (d >= 60 ==> MinutesSeconds(after(MinusMinute)) == (MinutesSeconds(d).0 - 1, MinutesSeconds(d).1))
      && (d < 60 ==> after(MinusMinute) == 0)
      && after(PlusFive) == d + 5
      && after(MinusFive) == if d < 5 then 0 else d - 5
  {
    var d := EffectiveDuration(w.modules[k], catalog);
    MinutesSecondsAddMinute(d);
    if d >= 60 {
      MinutesSecondsAddMinute(d - 60);
    }
  }

  /** "+1 min" followed by "-1 min" restores a non-negative duration. */
  lemma PlusThenMinusMinute(w: Workout, catalog: seq<Exercise>, k: nat, now: int, later: int)
    requires k < |w.modules|
    requires EffectiveDuration(w.modules[k], catalog) >= 0
    ensures var plus := Press(w, catalog, k, PlusMinute, now);
      EffectiveDuration(Press(plus, catalog, k, MinusMinute, later).modules[k], catalog)
        == EffectiveDuration(w.modules[k], catalog)
  {
  }

  /** `calculateTotalTime` over the available exercises, split into minutes and
      seconds. */
  function TotalTime(w: Workout, builtIn: seq<Exercise>, custom: seq<Exercise>): (ms: (int, int))
    ensures NonNegativeCatalog(builtIn) && NonNegativeCatalog(custom) && NonNegativeOverrides(w.modules) ==>
      ms.0 >= 0 && 0 <= ms.1 < 60 && ms.0 * 60 + ms.1 == TotalSeconds(w.modules, AvailableExercises(builtIn, custom))
  {
    MinutesSeconds(TotalSeconds(w.modules, AvailableExercises(builtIn, custom)))
  }

  /** The "Go Live" button: enabled only when the workout has modules, and then
      it starts the edited copy. */
  function GoLive(edited: Workout): (started: Option<Workout>)
    ensures started.Some? <==> |edited.modules| > 0
    ensures started.Some? ==> started.value == edited
  {
    if |edited.modules| > 0 then Some(edited) else None
  }
}
