/** What the editor, the preparation screen, the host player and the workout
    card share: looking an exercise up in the catalog, the "effective duration"
    of a module (`m.duration ?? exercise?.duration ?? 0`), the per-module edits
    done with `modules.map(...)`, and the total time with its minutes/seconds
    split. The catalog is an input: a list searched front to back like
    JavaScript's `Array.prototype.find`. */
module Workouts {
  import opened Types
  import Text
  import Seqs

  /** Position `i` holds the first entry with the id. */
  predicate FirstWithId(catalog: seq<Exercise>, id: string, i: int)
  {
    0 <= i < |catalog| && catalog[i].id == id && forall j :: 0 <= j < i ==> catalog[j].id != id
  }

  /** `catalog.find(ex => ex.id === id)`: the first entry with the id. */
  function FindExercise(catalog: seq<Exercise>, id: string): (r: Option<Exercise>)
    ensures r.Some? ==> r.value in catalog && r.value.id == id
    ensures r.None? <==> forall e :: e in catalog ==> e.id != id
    ensures r.Some? ==> exists i :: 0 <= i < |catalog| && catalog[i] == r.value && FirstWithId(catalog, id, i)
  {
    if catalog == [] then None
    else if catalog[0].id == id then Some(catalog[0])
    else FindExercise(catalog[1..], id)
  }

  /** Searching a concatenated catalog finds the entry of the first part when
      it has one, and otherwise searches the second part. */
  lemma {:induction false} FindExerciseInConcat(a: seq<Exercise>, b: seq<Exercise>, id: string)
    ensures FindExercise(a + b, id)
         == if FindExercise(a, id).Some? then FindExercise(a, id) else FindExercise(b, id)
  {
    if a != [] {
      assert (a + b)[1..] == a[1..] + b;
      FindExerciseInConcat(a[1..], b, id);
    } else {
      assert a + b == b;
    }
  }

  /** `m.duration ?? catalogEntry?.duration ?? 0`: the module's own duration when
      set (even when it is 0), else the duration of the first catalog entry with
      the module's exercise id, else 0. */
  function EffectiveDuration(m: WorkoutModule, catalog: seq<Exercise>): (d: int)
    ensures m.duration.Some? ==> d == m.duration.value
    ensures m.duration.None? && (forall e :: e in catalog ==> e.id != m.exerciseId) ==> d == 0
    ensures m.duration.None? ==> forall i :: FirstWithId(catalog, m.exerciseId, i) ==> d == catalog[i].duration
  {
    match m.duration
    case Some(d) => d
    case None =>
      match FindExercise(catalog, m.exerciseId)
      case Some(e) => e.duration
      case None => 0
  }

  /** Every catalog entry has a non-negative duration. */
  predicate NonNegativeCatalog(catalog: seq<Exercise>)
  {
    forall e :: e in catalog ==> e.duration >= 0
  }

  /** Every module override is non-negative (both editors clamp to that). */
  predicate NonNegativeOverrides(modules: seq<WorkoutModule>)
  {
    forall m :: m in modules && m.duration.Some? ==> m.duration.value >= 0
  }

  lemma EffectiveDurationNonNegative(m: WorkoutModule, catalog: seq<Exercise>)
    requires NonNegativeCatalog(catalog)
    requires m.duration.Some? ==> m.duration.value >= 0
    ensures EffectiveDuration(m, catalog) >= 0
  {
  }

  /** `modules.reduce((acc, m) => acc + effectiveDuration(m), 0)`. */
  function TotalSeconds(modules: seq<WorkoutModule>, catalog: seq<Exercise>): (t: int)
    ensures NonNegativeCatalog(catalog) && NonNegativeOverrides(modules) ==> t >= 0
    ensures modules == [] ==> t == 0
  {
    if modules == [] then 0
    else EffectiveDuration(modules[0], catalog) + TotalSeconds(modules[1..], catalog)
  }

  /** The total of a concatenation is the sum of the totals. */
  lemma {:induction false} TotalSecondsAppend(a: seq<WorkoutModule>, b: seq<WorkoutModule>, catalog: seq<Exercise>)
    ensures TotalSeconds(a + b, catalog) == TotalSeconds(a, catalog) + TotalSeconds(b, catalog)
  {
    if a == [] {
      assert a + b == b;
    } else {
      assert (a + b)[1..] == a[1..] + b;
      TotalSecondsAppend(a[1..], b, catalog);
    }
  }

  /** Two module lists whose modules have the same effective durations, position
      by position, have the same total. */
  lemma {:induction false} TotalSecondsPointwise(a: seq<WorkoutModule>, b: seq<WorkoutModule>, catalog: seq<Exercise>)
    requires |a| == |b|
    requires forall i :: 0 <= i < |a| ==> EffectiveDuration(a[i], catalog) == EffectiveDuration(b[i], catalog)
    ensures TotalSeconds(a, catalog) == TotalSeconds(b, catalog)
  {
    if a != [] {
      TotalSecondsPointwise(a[1..], b[1..], catalog);
    }
  }

  /** Splitting a module list by a predicate splits its total. */
  lemma {:induction false} TotalSecondsFilter(s: seq<WorkoutModule>, p: WorkoutModule -> bool, catalog: seq<Exercise>)
    ensures TotalSeconds(s, catalog)
         == TotalSeconds(Seqs.Filter(s, p), catalog) + TotalSeconds(Seqs.Filter(s, m => !p(m)), catalog)
  {
    if s != [] {
      TotalSecondsFilter(s[1..], p, catalog);
      var kept := Seqs.Filter(s[1..], p);
      var dropped := Seqs.Filter(s[1..], m => !p(m));
      if p(s[0]) {
        assert Seqs.Filter(s, p) == [s[0]] + kept;
        assert ([s[0]] + kept)[1..] == kept;
      } else {
        assert Seqs.Filter(s, m => !p(m)) == [s[0]] + dropped;
        assert ([s[0]] + dropped)[1..] == dropped;
      }
    }
  }

  /** JavaScript's `a % b` for a positive divisor: the remainder takes the sign
      of the dividend (Dafny's `%` never returns a negative value). */
  function JsRem(a: int, b: int): (r: int)
    requires b > 0
    ensures -b < r < b
    ensures a >= 0 ==> r == a % b
    ensures a < 0 ==> r <= 0
    ensures a == TruncQuot(a, b) * b + r
  {
    if a >= 0 then a % b else -((-a) % b)
  }

  /** The quotient rounded toward zero, as `Math.trunc(a / b)`. */
  function TruncQuot(a: int, b: int): int
    requires b > 0
  {
    if a >= 0 then a / b else -((-a) / b)
  }

  /** `[Math.floor(total / 60), total % 60]`. For a positive divisor Dafny's `/`
      is floor division, as `Math.floor` of the quotient is. */
  function MinutesSeconds(total: int): (ms: (int, int))
    ensures total >= 0 ==> ms.0 >= 0 && 0 <= ms.1 < 60 && ms.0 * 60 + ms.1 == total
  {
    (total / 60, JsRem(total, 60))
  }

  /** The minutes/seconds split is exact for non-negative totals, and adding a
      whole minute only moves the minutes part. */
  lemma {:induction false} MinutesSecondsAddMinute(total: int)
    requires total >= 0
    ensures MinutesSeconds(total + 60) == (MinutesSeconds(total).0 + 1, MinutesSeconds(total).1)
  {
  }

  /** The `${minutes}m ${seconds}s` label of the editor and the preparation screen. */
  function ClockLabel(total: int): string
  {
    var (m, s) := MinutesSeconds(total);
    Text.Decimal(m) + "m " + Text.Decimal(s) + "s"
  }

  /** `modules.map(m => m.id === moduleId ? { ...m, displayId } : m)`. */
  function SetDisplay(modules: seq<WorkoutModule>, moduleId: string, displayId: string): (r: seq<WorkoutModule>)
    ensures |r| == |modules|
    ensures forall i :: 0 <= i < |r| ==>
      r[i].id == modules[i].id && r[i].exerciseId == modules[i].exerciseId && r[i].duration == modules[i].duration
    ensures forall i :: 0 <= i < |r| ==>
      r[i].displayId == if modules[i].id == moduleId then displayId else modules[i].displayId
  {
    seq(|modules|, i requires 0 <= i < |modules| =>
      if modules[i].id == moduleId then modules[i].(displayId := displayId) else modules[i])
  }

  /** `modules.map(m => m.id === moduleId ? { ...m, duration } : m)`. */
  function SetDuration(modules: seq<WorkoutModule>, moduleId: string, duration: int): (r: seq<WorkoutModule>)
    ensures |r| == |modules|
    ensures forall i :: 0 <= i < |r| ==>
      r[i].id == modules[i].id && r[i].exerciseId == modules[i].exerciseId && r[i].displayId == modules[i].displayId
    ensures forall i :: 0 <= i < |r| ==>
      r[i].duration == if modules[i].id == moduleId then Some(duration) else modules[i].duration
  {
    seq(|modules|, i requires 0 <= i < |modules| =>
      if modules[i].id == moduleId then modules[i].(duration := Some(duration)) else modules[i])
  }

  /** Re-assigning displays never changes the total time. */
  lemma SetDisplayKeepsTotal(modules: seq<WorkoutModule>, moduleId: string, displayId: string, catalog: seq<Exercise>)
    ensures TotalSeconds(SetDisplay(modules, moduleId, displayId), catalog) == TotalSeconds(modules, catalog)
  {
    TotalSecondsPointwise(SetDisplay(modules, moduleId, displayId), modules, catalog);
  }

  /** After setting a duration, the matching modules' effective duration is that
      duration whatever the catalog says, and every other module keeps its own. */
  lemma SetDurationEffective(modules: seq<WorkoutModule>, moduleId: string, duration: int, catalog: seq<Exercise>, i: int)
    requires 0 <= i < |modules|
    ensures EffectiveDuration(SetDuration(modules, moduleId, duration)[i], catalog)
         == if modules[i].id == moduleId then duration else EffectiveDuration(modules[i], catalog)
  {
  }
}
