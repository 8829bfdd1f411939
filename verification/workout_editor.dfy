/** The workout editor (views/WorkoutEditor.tsx). Every handler builds a new
    workout or folder list from the current one; the clock reading
    (`Date.now()`) and the random id of a new module are parameters. */
module WorkoutEditor {
  import opened Types
  import opened Workouts
  import Seqs

  /** The editor's floor for a module duration, in seconds. */
  const MinModuleSeconds: int := 5

  /** `addModule`: a new module for `ex` on the local display, carrying the
      exercise's own duration, appended at the end. */
  function AddModule(w: Workout, ex: Exercise, newId: string, now: int): (r: Workout)
    ensures |r.modules| == |w.modules| + 1 && r.modules[..|w.modules|] == w.modules
    ensures r.modules[|w.modules|] == WorkoutModule(newId, ex.id, LocalDisplayId, Some(ex.duration))
    ensures r.lastModified == now
    ensures r.id == w.id && r.name == w.name && r.scheduledDays == w.scheduledDays
  {
    w.(modules := w.modules + [WorkoutModule(newId, ex.id, LocalDisplayId, Some(ex.duration))],
       lastModified := now)
  }

  /** Adding an exercise adds exactly its duration to the total, whatever the
      catalog says about it. */
  lemma AddModuleTotal(w: Workout, ex: Exercise, newId: string, now: int, catalog: seq<Exercise>)
    ensures TotalSeconds(AddModule(w, ex, newId, now).modules, catalog) == TotalSeconds(w.modules, catalog) + ex.duration
  {
    var m := WorkoutModule(newId, ex.id, LocalDisplayId, Some(ex.duration));
    TotalSecondsAppend(w.modules, [m], catalog);
    assert TotalSeconds([m], catalog) == ex.duration + TotalSeconds([m][1..], catalog);
  }

  /** `toggleScheduleDay`: the day is removed when scheduled, appended when not.
      The modification time is left alone. */
  function ToggleScheduleDay(w: Workout, day: int): (r: Workout)
    ensures day in r.scheduledDays <==> day !in w.scheduledDays
    ensures forall d :: d != day ==> (d in r.scheduledDays <==> d in w.scheduledDays)
    ensures r.modules == w.modules && r.lastModified == w.lastModified && r.id == w.id && r.name == w.name
  {
    w.(scheduledDays := Seqs.Toggle(w.scheduledDays, day))
  }

  /** Toggling a day twice restores the schedule's days, and the schedule itself
      when the day was not scheduled; a schedule without repeats stays so. */
  lemma ToggleScheduleDayTwice(w: Workout, day: int)
    ensures forall d :: d in ToggleScheduleDay(ToggleScheduleDay(w, day), day).scheduledDays <==> d in w.scheduledDays
    ensures day !in w.scheduledDays ==> ToggleScheduleDay(ToggleScheduleDay(w, day), day) == w
    ensures Seqs.NoDuplicates(w.scheduledDays) ==> Seqs.NoDuplicates(ToggleScheduleDay(w, day).scheduledDays)
  {
    Seqs.ToggleTwice(w.scheduledDays, day);
    if Seqs.NoDuplicates(w.scheduledDays) {
      Seqs.ToggleKeepsNoDuplicates(w.scheduledDays, day);
    }
  }

  /** `toggleFolderMembership`: in every folder with the given id the workout's
      membership flips; every other folder, and every other workout's
      membership, is unchanged. */
  function ToggleFolderMembership(folders: seq<Folder>, folderId: string, workoutId: string): (r: seq<Folder>)
    ensures |r| == |folders|
    ensures forall i :: 0 <= i < |r| ==> r[i].id == folders[i].id && r[i].name == folders[i].name
    ensures forall i :: 0 <= i < |r| && folders[i].id != folderId ==> r[i] == folders[i]
    ensures forall i :: 0 <= i < |r| && folders[i].id == folderId ==>
      (workoutId in r[i].workoutIds <==> workoutId !in folders[i].workoutIds)
    ensures forall i, other :: 0 <= i < |r| && other != workoutId ==>
      (other in r[i].workoutIds <==> other in folders[i].workoutIds)
  {
    seq(|folders|, i requires 0 <= i < |folders| =>
      if folders[i].id == folderId
      then folders[i].(workoutIds := Seqs.Toggle(folders[i].workoutIds, workoutId))
      else folders[i])
  }

  /** Toggling a folder twice gives every folder back its members. */
  lemma ToggleFolderTwice(folders: seq<Folder>, folderId: string, workoutId: string)
    ensures var twice := ToggleFolderMembership(ToggleFolderMembership(folders, folderId, workoutId), folderId, workoutId);
      forall i, x :: 0 <= i < |folders| ==> (x in twice[i].workoutIds <==> x in folders[i].workoutIds)
  {
    var once := ToggleFolderMembership(folders, folderId, workoutId);
    var twice := ToggleFolderMembership(once, folderId, workoutId);
    forall i, x | 0 <= i < |folders|
      ensures x in twice[i].workoutIds <==> x in folders[i].workoutIds
    {
      if folders[i].id == folderId {
        Seqs.ToggleTwice(folders[i].workoutIds, workoutId);
      }
    }
  }

  /** `updateModuleDisplay`. */
  function UpdateModuleDisplay(w: Workout, moduleId: string, displayId: string, now: int): (r: Workout)
    ensures |r.modules| == |w.modules|
    ensures forall i :: 0 <= i < |r.modules| && w.modules[i].id == moduleId ==> r.modules[i] == w.modules[i].(displayId := displayId)
    ensures forall i :: 0 <= i < |r.modules| && w.modules[i].id != moduleId ==> r.modules[i] == w.modules[i]
    ensures r.lastModified == now && r.id == w.id && r.name == w.name && r.scheduledDays == w.scheduledDays
  {
    w.(modules := SetDisplay(w.modules, moduleId, displayId), lastModified := now)
  }

  /** Routing a module to another display does not change the workout's length. */
  lemma UpdateModuleDisplayKeepsTotal(w: Workout, moduleId: string, displayId: string, now: int, catalog: seq<Exercise>)
    ensures TotalSeconds(UpdateModuleDisplay(w, moduleId, displayId, now).modules, catalog) == TotalSeconds(w.modules, catalog)
  {
    SetDisplayKeepsTotal(w.modules, moduleId, displayId, catalog);
  }

  /** `updateModuleDuration`, clamped below at `MinModuleSeconds`. */
  function UpdateModuleDuration(w: Workout, moduleId: string, duration: int, now: int): (r: Workout)
    ensures |r.modules| == |w.modules|
    ensures forall i :: 0 <= i < |r.modules| && w.modules[i].id == moduleId ==>
      && r.modules[i].duration.Some? && r.modules[i].duration.value >= MinModuleSeconds
      && (duration >= MinModuleSeconds ==> r.modules[i].duration.value == duration)
      && (duration < MinModuleSeconds ==> r.modules[i].duration.value == MinModuleSeconds)
      && r.modules[i] == w.modules[i].(duration := r.modules[i].duration)
    ensures forall i :: 0 <= i < |r.modules| && w.modules[i].id != moduleId ==> r.modules[i] == w.modules[i]
    ensures r.lastModified == now && r.id == w.id && r.name == w.name && r.scheduledDays == w.scheduledDays
  {
    var clamped := if duration < MinModuleSeconds then MinModuleSeconds else duration;
    w.(modules := SetDuration(w.modules, moduleId, clamped), lastModified := now)
  }

  /** After a duration edit the edited modules last at least `MinModuleSeconds`
      whatever the catalog says, and non-negative overrides stay non-negative. */
  lemma UpdateModuleDurationEffective(w: Workout, moduleId: string, duration: int, now: int, catalog: seq<Exercise>)
    ensures var r := UpdateModuleDuration(w, moduleId, duration, now);
      forall i :: 0 <= i < |w.modules| && w.modules[i].id == moduleId ==>
        EffectiveDuration(r.modules[i], catalog) >= MinModuleSeconds
    ensures NonNegativeOverrides(w.modules) ==> NonNegativeOverrides(UpdateModuleDuration(w, moduleId, duration, now).modules)
  {
    var r := UpdateModuleDuration(w, moduleId, duration, now);
    if NonNegativeOverrides(w.modules) {
      forall m | m in r.modules && m.duration.Some?
        ensures m.duration.value >= 0
      {
        var i :| 0 <= i < |r.modules| && r.modules[i] == m;
        if w.modules[i].id != moduleId {
          assert w.modules[i] in w.modules;
        }
      }
    }
  }

  /** `removeModule`: every module with the id goes, the others stay in order. */
  function RemoveModule(w: Workout, moduleId: string, now: int): (r: Workout)
    ensures forall m :: m in r.modules <==> m in w.modules && m.id != moduleId
    ensures forall m :: multiset(r.modules)[m] == if m.id != moduleId then multiset(w.modules)[m] else 0
    ensures Seqs.IsSubseq(r.modules, w.modules)
    ensures r.lastModified == now && r.id == w.id && r.name == w.name && r.scheduledDays == w.scheduledDays
  {
    Seqs.FilterIsSubseq(w.modules, (m: WorkoutModule) => m.id != moduleId);
    w.(modules := Seqs.Filter(w.modules, (m: WorkoutModule) => m.id != moduleId), lastModified := now)
  }

  /** Removing a module takes exactly its time off the total. */
  lemma RemoveModuleTotal(w: Workout, moduleId: string, now: int, catalog: seq<Exercise>)
    ensures TotalSeconds(RemoveModule(w, moduleId, now).modules, catalog)
         == TotalSeconds(w.modules, catalog) - TotalSeconds(Seqs.Filter(w.modules, (m: WorkoutModule) => m.id == moduleId), catalog)
  {
    var p := (m: WorkoutModule) => m.id != moduleId;
    TotalSecondsFilter(w.modules, p, catalog);
    assert Seqs.Filter(w.modules, m => !p(m)) == Seqs.Filter(w.modules, (m: WorkoutModule) => m.id == moduleId) by {
      FilterSameOn(w.modules, m => !p(m), (m: WorkoutModule) => m.id == moduleId);
    }
  }

  lemma {:induction false} FilterSameOn(s: seq<WorkoutModule>, p: WorkoutModule -> bool, q: WorkoutModule -> bool)
    requires forall m :: p(m) == q(m)
    ensures Seqs.Filter(s, p) == Seqs.Filter(s, q)
  {
    if s != [] {
      FilterSameOn(s[1..], p, q);
    }
  }

  /** `calculateTotalTime`: the total over the built-in catalog, split into
      whole minutes and leftover seconds. */
  function TotalTime(w: Workout, catalog: seq<Exercise>): (ms: (int, int))
    ensures NonNegativeCatalog(catalog) && NonNegativeOverrides(w.modules) ==>
      ms.0 >= 0 && 0 <= ms.1 < 60 && ms.0 * 60 + ms.1 == TotalSeconds(w.modules, catalog)
  {
    MinutesSeconds(TotalSeconds(w.modules, catalog))
  }
}
