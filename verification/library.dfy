/** The exercise library (views/Library.tsx): the built-in catalog with stored
    overrides merged in by id, filtered by a case-insensitive name search and a
    category chip. */
module Library {
  import opened Types
  import Text
  import Seqs

  /** `overrides[ex.id] || ex`: a stored override replaces the entry with its id. */
  function ApplyOverride(overrides: map<string, Exercise>, ex: Exercise): Exercise
  {
    if ex.id in overrides then overrides[ex.id] else ex
  }

  /** `catalog.map(ex => overrides[ex.id] || ex)`. */
  function MergeOverrides(catalog: seq<Exercise>, overrides: map<string, Exercise>): (r: seq<Exercise>)
    ensures |r| == |catalog|
    ensures forall i :: 0 <= i < |r| && catalog[i].id in overrides ==> r[i] == overrides[catalog[i].id]
    ensures forall i :: 0 <= i < |r| && catalog[i].id !in overrides ==> r[i] == catalog[i]
  {
    seq(|catalog|, i requires 0 <= i < |catalog| => ApplyOverride(overrides, catalog[i]))
  }

  /** Overrides are stored under the id of the exercise they replace. */
  predicate KeyedById(overrides: map<string, Exercise>)
  {
    forall k :: k in overrides ==> overrides[k].id == k
  }

  /** With overrides keyed by their own id, merging a second time changes nothing. */
  lemma MergeIdempotent(catalog: seq<Exercise>, overrides: map<string, Exercise>)
    requires KeyedById(overrides)
    ensures MergeOverrides(MergeOverrides(catalog, overrides), overrides) == MergeOverrides(catalog, overrides)
  {
    var once := MergeOverrides(catalog, overrides);
    var twice := MergeOverrides(once, overrides);
    forall i | 0 <= i < |once|
      ensures twice[i] == once[i]
    {
      if catalog[i].id in overrides {
        assert once[i].id == catalog[i].id;
      }
    }
  }

  /** Without stored overrides the library shows the catalog as it is. */
  lemma MergeNoOverrides(catalog: seq<Exercise>)
    ensures MergeOverrides(catalog, map[]) == catalog
  {
  }

  /** The search box and category chip: the lower-cased name contains the
      lower-cased search text, and the category is 'All' or the exercise's own. */
  predicate Matches(ex: Exercise, search: string, category: string)
  {
    Text.Includes(Text.ToLower(ex.name), Text.ToLower(search))
    && (category == "All" || ex.category == category)
  }

  /** `exercises.filter(ex => matchesSearch && matchesCat)`. */
  function FilterExercises(exercises: seq<Exercise>, search: string, category: string): (r: seq<Exercise>)
    ensures forall ex :: ex in r <==> ex in exercises && Matches(ex, search, category)
    ensures forall ex :: multiset(r)[ex] == if Matches(ex, search, category) then multiset(exercises)[ex] else 0
    ensures Seqs.IsSubseq(r, exercises)
  {
    Seqs.FilterIsSubseq(exercises, ex => Matches(ex, search, category));
    Seqs.Filter(exercises, ex => Matches(ex, search, category))
  }

  /** An empty search with the 'All' chip keeps every exercise, in order. */
  lemma EmptySearchKeepsAll(exercises: seq<Exercise>)
    ensures FilterExercises(exercises, "", "All") == exercises
  {
    forall ex | ex in exercises
      ensures Matches(ex, "", "All")
    {
      Text.IncludesEmpty(Text.ToLower(ex.name));
    }
    Seqs.FilterKeepsAll(exercises, ex => Matches(ex, "", "All"));
  }

  /** The search ignores letter case in both the name and the search text:
      upper-casing either does not change what matches. */
  lemma SearchIgnoresCase(ex: Exercise, search: string, category: string)
    ensures Matches(ex, search, category) == Matches(ex, Text.ToUpper(search), category)
    ensures Matches(ex, search, category) == Matches(ex.(name := Text.ToUpper(ex.name)), search, category)
  {
    Text.LowerOfUpper(search);
    Text.LowerOfUpper(ex.name);
  }
}
