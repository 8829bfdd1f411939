/** The application shell (App.tsx): saving a workout into the stored list, the
    display ("TV") mode chosen by the page's query string, and the view router
    with its hand-offs between the home screen, the editor, the preparation
    screen and the player. The stored list and the clock reading are values
    passed in. */
module App {
  import opened Types

  /** `workouts.findIndex(w => w.id === id)`, with -1 as `None`. */
  function FindIndex(workouts: seq<Workout>, id: string): (r: Option<nat>)
    ensures r.Some? ==> r.value < |workouts| && workouts[r.value].id == id
                        && forall j :: 0 <= j < r.value ==> workouts[j].id != id
    ensures r.None? <==> forall j :: 0 <= j < |workouts| ==> workouts[j].id != id
  {
    if workouts == [] then None
    else if workouts[0].id == id then Some(0)
    else match FindIndex(workouts[1..], id)
      case None => None
      case Some(k) => Some(k + 1)
  }

  /** `handleUpdateWorkout`: the saved copy, stamped with the current time,
      replaces the first stored workout with its id, or is appended when there
      is none. */
  function Upsert(workouts: seq<Workout>, workout: Workout, now: int): (r: seq<Workout>)
    ensures FindIndex(workouts, workout.id).Some? ==>
      var k := FindIndex(workouts, workout.id).value;
      |r| == |workouts| && r[k] == workout.(lastModified := now)
      && forall j :: 0 <= j < |r| && j != k ==> r[j] == workouts[j]
    ensures FindIndex(workouts, workout.id).None? ==> r == workouts + [workout.(lastModified := now)]
  {
    match FindIndex(workouts, workout.id)
    case Some(k) => workouts[k := workout.(lastModified := now)]
    case None => workouts + [workout.(lastModified := now)]
  }

  /** After a save, looking the id up finds exactly the saved copy; saving
      again replaces it in the same place. */
  lemma UpsertThenFind(workouts: seq<Workout>, workout: Workout, now: int, later: int)
    ensures var r := Upsert(workouts, workout, now);
      && FindIndex(r, workout.id).Some?
      && r[FindIndex(r, workout.id).value] == workout.(lastModified := now)
      && Upsert(r, workout, later) == Upsert(workouts, workout, later)
  {
    var r := Upsert(workouts, workout, now);
    match FindIndex(workouts, workout.id)
    case Some(k) =>
      assert FindIndex(r, workout.id) == Some(k) by {
        FindIndexSameIds(workouts, r, workout.id);
      }
    case None =>
      assert FindIndex(r, workout.id) == Some(|workouts|) by {
        FindIndexSameIds(workouts, r[..|workouts|], workout.id);
        FindIndexAppend(workouts, [workout.(lastModified := now)], workout.id);
      }
  }

  /** Lists with the same ids, position by position, give the same index. */
  lemma {:induction false} FindIndexSameIds(a: seq<Workout>, b: seq<Workout>, id: string)
    requires |a| == |b|
    requires forall j :: 0 <= j < |a| ==> (a[j].id == id <==> b[j].id == id)
    ensures FindIndex(a, id) == FindIndex(b, id)
  {
    if a != [] {
      FindIndexSameIds(a[1..], b[1..], id);
    }
  }

  lemma {:induction false} FindIndexAppend(a: seq<Workout>, b: seq<Workout>, id: string)
    requires FindIndex(a, id).None?
    ensures FindIndex(a + b, id) == match FindIndex(b, id)
                                    case None => None
                                    case Some(k) => Some(|a| + k)
  {
    if a != [] {
      assert (a + b)[1..] == a[1..] + b;
      FindIndexAppend(a[1..], b, id);
    } else {
      assert a + b == b;
    }
  }

  /** `new URLSearchParams(search).get(key)`: the value of the first pair with
      that key. */
  function GetParam(params: seq<(string, string)>, key: string): (r: Option<string>)
    ensures r.Some? ==> (key, r.value) in params
    ensures r.None? <==> forall p :: p in params ==> p.0 != key
  {
    if params == [] then None
    else if params[0].0 == key then Some(params[0].1)
    else GetParam(params[1..], key)
  }

  /** The page is a display when its first `role` parameter is `tv`. */
  predicate IsTvMode(params: seq<(string, string)>)
  {
    GetParam(params, "role") == Some("tv")
  }

  /** A later `role` parameter does not change the mode. */
  lemma FirstRoleDecides(params: seq<(string, string)>, role: string, extra: seq<(string, string)>)
    ensures IsTvMode(params + [("role", role)] + extra) <==>
      (if GetParam(params, "role").Some? then IsTvMode(params) else role == "tv")
  {
    GetParamAppend(params, [("role", role)] + extra, "role");
    assert params + [("role", role)] + extra == params + ([("role", role)] + extra);
  }

  lemma {:induction false} GetParamAppend(a: seq<(string, string)>, b: seq<(string, string)>, key: string)
    ensures GetParam(a + b, key) == if GetParam(a, key).Some? then GetParam(a, key) else GetParam(b, key)
  {
    if a != [] {
      assert (a + b)[1..] == a[1..] + b;
      GetParamAppend(a[1..], b, key);
    } else {
      assert a + b == b;
    }
  }

  /** The value of `activeView`; navigation can set any string, so names
      outside the seven views are kept as `Unknown`. */
  datatype ViewName = HomeView | LibraryView | ScheduleView | SettingsView | EditorView | PlayerView | PrepareView
                    | Unknown(name: string)

  /** What the application renders. */
  datatype Screen =
    | TvScreen
    | HomeScreen
    | LibraryScreen
    | ScheduleScreen
    | SettingsScreen
    | EditorScreen(editing: Workout)
    | PrepareScreen(preparing: Workout)
    | PlayerScreen(playing: Workout)

  datatype AppState = AppState(
    tvMode: bool,
    activeView: ViewName,
    editing: Option<Workout>,
    preparing: Option<Workout>,
    playing: Option<Workout>,
    stored: seq<Workout>)

  /** The home screen is shown for itself, for an unknown view, and for a view
      whose workout is missing. */
  predicate FallsBackHome(s: AppState)
  {
    || s.activeView.HomeView?
    || s.activeView.Unknown?
    || (s.activeView.EditorView? && s.editing.None?)
    || (s.activeView.PrepareView? && s.preparing.None?)
    || (s.activeView.PlayerView? && s.playing.None?)
  }

  /** The display page, or `renderView()`: a view whose workout is missing, and
      an unknown view, fall back to the home screen. */
  function Render(s: AppState): (screen: Screen)
    ensures s.tvMode <==> screen == TvScreen
    ensures screen.HomeScreen? <==> (!s.tvMode && FallsBackHome(s))
    ensures screen.EditorScreen? ==> s.editing == Some(screen.editing)
    ensures screen.PrepareScreen? ==> s.preparing == Some(screen.preparing)
    ensures screen.PlayerScreen? ==> s.playing == Some(screen.playing)
  {
    if s.tvMode then TvScreen
    else match s.activeView
      case HomeView => HomeScreen
      case LibraryView => LibraryScreen
      case EditorView => if s.editing.Some? then EditorScreen(s.editing.value) else HomeScreen
      case PrepareView => if s.preparing.Some? then PrepareScreen(s.preparing.value) else HomeScreen
      case PlayerView => if s.playing.Some? then PlayerScreen(s.playing.value) else HomeScreen
      case ScheduleView => ScheduleScreen
      case SettingsView => SettingsScreen
      case Unknown(_) => HomeScreen
  }

  /** Choosing a workout on the home screen opens the preparation screen. */
  function SelectWorkout(s: AppState, w: Workout): (r: AppState)
    ensures !s.tvMode ==> Render(r) == PrepareScreen(w)
    ensures r.stored == s.stored
  {
    s.(preparing := Some(w), activeView := PrepareView)
  }

  /** "Go Live" on the preparation screen: the workout is saved, then played. */
  function PrepareStart(s: AppState, w: Workout, now: int): (r: AppState)
    ensures !s.tvMode ==> Render(r) == PlayerScreen(w)
    ensures r.stored == Upsert(s.stored, w, now)
  {
    s.(stored := Upsert(s.stored, w, now), playing := Some(w), activeView := PlayerView)
  }

  /** "Edit" on the preparation screen: the workout is saved, then edited. */
  function PrepareEdit(s: AppState, w: Workout, now: int): (r: AppState)
    ensures !s.tvMode ==> Render(r) == EditorScreen(w)
    ensures r.stored == Upsert(s.stored, w, now)
  {
    s.(stored := Upsert(s.stored, w, now), editing := Some(w), activeView := EditorView)
  }

  /** "Save" in the editor: the workout is saved, the editor is closed and the
      home screen shown. */
  function EditorSave(s: AppState, w: Workout, now: int): (r: AppState)
    ensures !s.tvMode ==> Render(r) == HomeScreen
    ensures r.editing.None? && r.stored == Upsert(s.stored, w, now)
  {
    s.(stored := Upsert(s.stored, w, now), editing := None, activeView := HomeView)
  }

  /** "Cancel" in the editor: nothing is saved. */
  function EditorCancel(s: AppState): (r: AppState)
    ensures !s.tvMode ==> Render(r) == HomeScreen
    ensures r.editing.None? && r.stored == s.stored
  {
    s.(editing := None, activeView := HomeView)
  }

  /** "Play" in the editor plays the edited workout without saving it. */
  function EditorPlay(s: AppState, w: Workout): (r: AppState)
    ensures !s.tvMode ==> Render(r) == PlayerScreen(w)
    ensures r.stored == s.stored
  {
    s.(playing := Some(w), activeView := PlayerView)
  }

  /** Closing the preparation screen or the player returns home; the workout
      being prepared or played stays set. */
  function CloseToHome(s: AppState): (r: AppState)
    ensures !s.tvMode ==> Render(r) == HomeScreen
    ensures r.stored == s.stored && r.preparing == s.preparing && r.playing == s.playing
  {
    s.(activeView := HomeView)
  }

  /** Going live saves exactly one copy: a workout already stored keeps its
      place and the list its length; a new one is appended. Either way the
      stored copy carries the time of the save. */
  lemma GoLiveSavesOnce(s: AppState, w: Workout, now: int)
    ensures var r := PrepareStart(s, w, now);
      && |r.stored| == (if FindIndex(s.stored, w.id).Some? then |s.stored| else |s.stored| + 1)
      && FindIndex(r.stored, w.id).Some?
      && r.stored[FindIndex(r.stored, w.id).value] == w.(lastModified := now)
  {
    UpsertThenFind(s.stored, w, now, now);
  }
}
