/** Generic sequence operations that the application performs with JavaScript's
    `Array.prototype.filter`, `new Set(...)` and the "remove if present, else append"
    toggle idiom. Each is defined once here and reused by the views. */
module Seqs {

  /** `a` can be obtained from `b` by deleting elements: order is preserved. */
  ghost predicate IsSubseq<T>(a: seq<T>, b: seq<T>)
    decreases |b|
  {
    a == [] || (b != [] && ((a[0] == b[0] && IsSubseq(a[1..], b[1..])) || IsSubseq(a, b[1..])))
  }

  /** No element occurs twice. */
  predicate NoDuplicates<T(==,!new)>(s: seq<T>)
  {
    forall i, j :: 0 <= i < j < |s| ==> s[i] != s[j]
  }

  /** Appending a new value keeps a list free of repeats. */
  lemma NoDuplicatesSnoc<T(!new)>(s: seq<T>, x: T)
    requires NoDuplicates(s) && x !in s
    ensures NoDuplicates(s + [x])
  {
    forall i, j | 0 <= i < j < |s + [x]|
      ensures (s + [x])[i] != (s + [x])[j]
    {
      if j == |s| {
        assert (s + [x])[i] == s[i];
      }
    }
  }

  /** `s.filter(p)`: the elements satisfying `p`, in their original order,
      each with its original multiplicity. */
  function Filter<T(!new)>(s: seq<T>, p: T -> bool): (r: seq<T>)
    ensures |r| <= |s|
    ensures forall x :: x in r <==> x in s && p(x)
    ensures forall x :: multiset(r)[x] == if p(x) then multiset(s)[x] else 0
  {
    if s == [] then []
    else
      var rest := Filter(s[1..], p);
      assert s == [s[0]] + s[1..];
      if p(s[0]) then [s[0]] + rest else rest
  }

  lemma {:induction false} FilterIsSubseq<T(!new)>(s: seq<T>, p: T -> bool)
    ensures IsSubseq(Filter(s, p), s)
  {
    if s != [] {
      FilterIsSubseq(s[1..], p);
    }
  }

  /** Filtering with a predicate that every element satisfies changes nothing. */
  lemma {:induction false} FilterKeepsAll<T(!new)>(s: seq<T>, p: T -> bool)
    requires forall x :: x in s ==> p(x)
    ensures Filter(s, p) == s
  {
    if s != [] {
      FilterKeepsAll(s[1..], p);
    }
  }

  /** Filtering twice with the same predicate is the same as filtering once. */
  lemma FilterIdempotent<T(!new)>(s: seq<T>, p: T -> bool)
    ensures Filter(Filter(s, p), p) == Filter(s, p)
  {
    FilterKeepsAll(Filter(s, p), p);
  }

  /** Elements of `s` not in `seen`, first occurrence only, in order of first
      occurrence: the insertion order of a JavaScript `Set` built from `s`
      after `seen` was inserted. */
  function DedupFrom<T(==,!new)>(s: seq<T>, seen: set<T>): (r: seq<T>)
    ensures NoDuplicates(r)
    ensures forall x :: x in r <==> x in s && x !in seen
  {
    if s == [] then []
    else if s[0] in seen then DedupFrom(s[1..], seen)
    else [s[0]] + DedupFrom(s[1..], seen + {s[0]})
  }

  /** `Array.from(new Set(s))`. */
  function Dedup<T(==,!new)>(s: seq<T>): (r: seq<T>)
    ensures NoDuplicates(r)
    ensures forall x :: x in r <==> x in s
  {
    DedupFrom(s, {})
  }

  lemma {:induction false} DedupFromIsSubseq<T(!new)>(s: seq<T>, seen: set<T>)
    ensures IsSubseq(DedupFrom(s, seen), s)
  {
    if s != [] {
      if s[0] in seen {
        DedupFromIsSubseq(s[1..], seen);
      } else {
        DedupFromIsSubseq(s[1..], seen + {s[0]});
      }
    }
  }

  /** The deduplicated list keeps the order in which values first occur. */
  lemma DedupIsSubseq<T(!new)>(s: seq<T>)
    ensures IsSubseq(Dedup(s), s)
  {
    DedupFromIsSubseq(s, {});
  }

  lemma {:induction false} DedupFromSnoc<T(!new)>(s: seq<T>, seen: set<T>, x: T)
    ensures DedupFrom(s + [x], seen)
         == if x in s || x in seen then DedupFrom(s, seen) else DedupFrom(s, seen) + [x]
  {
    if s == [] {
      assert s + [x] == [x];
    } else {
      assert (s + [x])[0] == s[0] && (s + [x])[1..] == s[1..] + [x];
      if s[0] in seen {
        DedupFromSnoc(s[1..], seen, x);
      } else {
        DedupFromSnoc(s[1..], seen + {s[0]}, x);
        if !(x in s || x in seen) {
          assert [s[0]] + (DedupFrom(s[1..], seen + {s[0]}) + [x])
              == ([s[0]] + DedupFrom(s[1..], seen + {s[0]})) + [x];
        }
      }
    }
  }

  /** A `Set` keeps insertion order: appending a value already present changes
      nothing, appending a new one puts it last. With `Dedup([]) == []` this
      determines `Dedup` on every list, so the values come out in order of
      first occurrence. */
  lemma DedupSnoc<T(!new)>(s: seq<T>, x: T)
    ensures Dedup(s + [x]) == if x in s then Dedup(s) else Dedup(s) + [x]
  {
    DedupFromSnoc(s, {}, x);
  }

  /** `s.includes(x) ? s.filter(y => y !== x) : [...s, x]`. */
  function Toggle<T(==,!new)>(s: seq<T>, x: T): (r: seq<T>)
    ensures x in r <==> x !in s
    ensures forall y :: y != x ==> (y in r <==> y in s)
    ensures x in s ==> IsSubseq(r, s)
    ensures x !in s ==> r == s + [x]
  {
    if x in s then
      FilterIsSubseq(s, y => y != x);
      Filter(s, y => y != x)
    else s + [x]
  }

  /** Filtering distributes over concatenation. */
  lemma {:induction false} FilterAppend<T(!new)>(a: seq<T>, b: seq<T>, p: T -> bool)
    ensures Filter(a + b, p) == Filter(a, p) + Filter(b, p)
  {
    if a == [] {
      assert a + b == b;
    } else {
      var ab := a + b;
      assert ab[0] == a[0] && ab[1..] == a[1..] + b;
      FilterAppend(a[1..], b, p);
      if p(a[0]) {
        calc {
          Filter(ab, p);
          [a[0]] + Filter(a[1..] + b, p);
          [a[0]] + (Filter(a[1..], p) + Filter(b, p));
          ([a[0]] + Filter(a[1..], p)) + Filter(b, p);
        }
      }
    }
  }

  /** Filtering never introduces a duplicate. */
  lemma {:induction false} FilterKeepsNoDuplicates<T(!new)>(s: seq<T>, p: T -> bool)
    requires NoDuplicates(s)
    ensures NoDuplicates(Filter(s, p))
  {
    if s != [] {
      assert NoDuplicates(s[1..]) by {
        forall i, j | 0 <= i < j < |s[1..]|
          ensures s[1..][i] != s[1..][j]
        {
          assert s[1..][i] == s[i + 1] && s[1..][j] == s[j + 1];
        }
      }
      FilterKeepsNoDuplicates(s[1..], p);
      assert s[0] !in s[1..] by {
        forall k | 0 <= k < |s[1..]|
          ensures s[1..][k] != s[0]
        {
          assert s[1..][k] == s[k + 1];
        }
      }
    }
  }

  /** Toggling keeps a duplicate-free list duplicate-free. */
  lemma ToggleKeepsNoDuplicates<T(!new)>(s: seq<T>, x: T)
    requires NoDuplicates(s)
    ensures NoDuplicates(Toggle(s, x))
  {
    if x in s {
      FilterKeepsNoDuplicates(s, y => y != x);
    }
  }

  /** Toggling the same value twice restores the membership of every value, and
      restores the list itself when the value was absent (adding appends it at
      the end, where the removal finds it). */
  lemma ToggleTwice<T(!new)>(s: seq<T>, x: T)
    ensures forall y :: y in Toggle(Toggle(s, x), x) <==> y in s
    ensures x !in s ==> Toggle(Toggle(s, x), x) == s
  {
    if x !in s {
      FilterAppend(s, [x], y => y != x);
      FilterKeepsAll(s, y => y != x);
    }
  }
}
