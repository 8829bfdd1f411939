/** The workout card on the home screen (components/WorkoutCard.tsx): the module
    count, the total time in whole minutes (or seconds under a minute), up to
    three exercise thumbnails and a "+N" badge for the rest. The catalog is
    the built-in one. */
module WorkoutCard {
  import opened Types
  import opened Workouts
  import Text

  /** The time label: seconds under a minute, otherwise the whole minutes with
      "min" for exactly one minute and "mins" for more. Leftover seconds are
      dropped. */
  function TotalLabel(totalSeconds: int): (s: string)
    ensures totalSeconds < 60 ==> s == Text.Decimal(totalSeconds) + "s"
    ensures totalSeconds >= 60 ==>
      s == Text.Decimal(totalSeconds / 60) + (if totalSeconds < 120 then " min" else " mins")
  {
    if totalSeconds < 60 then Text.Decimal(totalSeconds) + "s"
    else
      var minutes := totalSeconds / 60;
      Text.Decimal(minutes) + " " + (if minutes == 1 then "min" else "mins")
  }

  /** Two totals of a minute or more in the same whole minute get the same label. */
  lemma SameMinuteSameLabel(a: int, b: int)
    requires a >= 60 && b >= 60 && a / 60 == b / 60
    ensures TotalLabel(a) == TotalLabel(b)
  {
  }

  /** The module count: the number, then "module" exactly when there is one
      and "modules" otherwise. */
  function ModuleCountLabel(count: nat): (s: string)
    ensures s == "1 module" <==> count == 1
    ensures var digits := Text.Decimal(count);
      && |digits| < |s| && s[..|digits|] == digits && s[|digits|] == ' '
      && (count != 1 ==> |s| == |digits| + 8 && s[|s| - 7..] == "modules")
  {
    var digits := Text.Decimal(count);
    var caption := digits + " " + (if count == 1 then "module" else "modules");
    assert caption[..|digits|] == digits;
    assert count != 1 ==> |caption| > |"1 module"|;
    caption
  }

  /** The line above the name: module count and total time. */
  function Caption(w: Workout, catalog: seq<Exercise>): string
  {
    ModuleCountLabel(|w.modules|) + ", " + TotalLabel(TotalSeconds(w.modules, catalog))
  }

  /** `workout.modules.slice(0, 3)`, each shown by its exercise's thumbnail
      (absent when the catalog has no such exercise). */
  function Thumbnails(modules: seq<WorkoutModule>, catalog: seq<Exercise>): (t: seq<Option<string>>)
    ensures |t| == if |modules| < 3 then |modules| else 3
    ensures forall i :: 0 <= i < |t| ==>
      t[i] == match FindExercise(catalog, modules[i].exerciseId)
              case Some(e) => Some(e.thumbnail)
              case None => None
  {
    var shown := if |modules| < 3 then modules else modules[..3];
    seq(|shown|, i requires 0 <= i < |shown| =>
      match FindExercise(catalog, shown[i].exerciseId)
      case Some(e) => Some(e.thumbnail)
      case None => None)
  }

  /** The "+N" badge, shown only beyond three modules. */
  function Badge(modules: seq<WorkoutModule>): (n: Option<nat>)
    ensures n.Some? <==> |modules| > 3
  {
    if |modules| > 3 then Some(|modules| - 3) else None
  }

  /** The thumbnails and the badge together account for every module once. */
  lemma CardCountsEveryModule(modules: seq<WorkoutModule>, catalog: seq<Exercise>)
    ensures |Thumbnails(modules, catalog)| + (match Badge(modules) case Some(n) => n case None => 0) == |modules|
  {
  }
}
