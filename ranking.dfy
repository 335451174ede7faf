/**
 * The ranking that `main` prints: the collected manga sorted by adjusted
 * rating (Python's stable `sorted`), reversed, and cut at the minimum
 * rating with a strict comparison. The adjusted rating is a floating-point
 * formula in the source; here it is any function `score` from manga to reals.
 */
module Ranking {
  import opened Model

  // ---------------------------------------------------------------------------
  // sorted(items, key=score)

  /** Inserts `x` in front of the first element whose score is at least its own. */
  function Insert(x: Manga, s: seq<Manga>, score: Manga -> real): (r: seq<Manga>)
    ensures multiset(r) == multiset(s) + multiset{x}
  {
    if s == [] then [x]
    else if score(x) <= score(s[0]) then [x] + s
    else
      assert s == [s[0]] + s[1..];
      [s[0]] + Insert(x, s[1..], score)
  }

  /** Python's `sorted(items, key=score)`, by insertion: ascending and stable. */
  function SortByScore(items: seq<Manga>, score: Manga -> real): (r: seq<Manga>)
    ensures multiset(r) == multiset(items)
  {
    if items == [] then []
    else
      assert items == [items[0]] + items[1..];
      Insert(items[0], SortByScore(items[1..], score), score)
  }

  predicate Ascending(s: seq<Manga>, score: Manga -> real) {
    forall i, j :: 0 <= i < j < |s| ==> score(s[i]) <= score(s[j])
  }

  predicate Descending(s: seq<Manga>, score: Manga -> real) {
    forall i, j :: 0 <= i < j < |s| ==> score(s[i]) >= score(s[j])
  }

  /** `reversed(s)`. */
  function Reverse(s: seq<Manga>): (r: seq<Manga>)
    ensures |r| == |s|
  {
    if s == [] then [] else Reverse(s[1..]) + [s[0]]
  }

  // ---------------------------------------------------------------------------
  // filter(...)

  /** The conditions the model filters by: the cut of `main`, and "has exactly this score" for stating stability. */
  datatype Cond = ScoreAbove(min: real) | ScoreIs(v: real)

  predicate Holds(c: Cond, score: Manga -> real, x: Manga) {
    match c
    case ScoreAbove(min) => score(x) > min
    case ScoreIs(v) => score(x) == v
  }

  /** Python's `filter`: the elements that meet the condition, in their order. */
  function Filter(s: seq<Manga>, c: Cond, score: Manga -> real): (r: seq<Manga>)
    ensures forall x :: x in r <==> x in s && Holds(c, score, x)
  {
    if s == [] then []
    else if Holds(c, score, s[0]) then [s[0]] + Filter(s[1..], c, score)
    else Filter(s[1..], c, score)
  }

  /** The ranking: sorted ascending, reversed, and only the manga above `min`. */
  function Rank(items: seq<Manga>, score: Manga -> real, min: real): seq<Manga> {
    Filter(Reverse(SortByScore(items, score)), ScoreAbove(min), score)
  }

  // ---------------------------------------------------------------------------
  // What the ranking promises

  /** Highest adjusted rating first. */
  lemma {:induction false} RankDescending(items: seq<Manga>, score: Manga -> real, min: real)
    ensures Descending(Rank(items, score, min), score)
  {
    var sorted := SortByScore(items, score);
    SortAscending(items, score);
    ReverseAscending(sorted, score);
    FilterDescending(Reverse(sorted), ScoreAbove(min), score);
  }

  /** Every collected manga above the cut appears, as often as it was collected, and nothing else does. */
  lemma {:induction false} RankContents(items: seq<Manga>, score: Manga -> real, min: real)
    ensures multiset(Rank(items, score, min)) == multiset(Filter(items, ScoreAbove(min), score))
    ensures forall x :: x in Rank(items, score, min) ==> score(x) > min
  {
    var r := Reverse(SortByScore(items, score));
    ReverseMultiset(SortByScore(items, score));
    forall x ensures multiset(Filter(r, ScoreAbove(min), score))[x] == multiset(Filter(items, ScoreAbove(min), score))[x] {
      FilterCount(r, ScoreAbove(min), score, x);
      FilterCount(items, ScoreAbove(min), score, x);
    }
  }

  /**
   * Manga with equal adjusted ratings come out in the reverse of the order
   * they were collected in (stable sort, then reversed); at or below the cut
   * none come out.
   */
  lemma {:induction false} RankTies(items: seq<Manga>, score: Manga -> real, min: real, v: real)
    ensures Filter(Rank(items, score, min), ScoreIs(v), score)
         == if v > min then Reverse(Filter(items, ScoreIs(v), score)) else []
  {
    var sorted := SortByScore(items, score);
    FilterSwap(Reverse(sorted), min, v, score);
    FilterReverse(sorted, ScoreIs(v), score);
    SortStable(items, score, v);
  }

  // ---------------------------------------------------------------------------
  // Sorting

  lemma {:induction false} InsertAscending(x: Manga, s: seq<Manga>, score: Manga -> real)
    requires Ascending(s, score)
    ensures Ascending(Insert(x, s, score), score)
    decreases |s|
  {
    if s != [] {
      TailSorted(s, score);
      if score(x) <= score(s[0]) {
        ConsAscending(x, s, score);
      } else {
        var t := Insert(x, s[1..], score);
        InsertAscending(x, s[1..], score);
        forall i | 0 <= i < |t| ensures score(s[0]) <= score(t[i]) {
          assert t[i] in multiset(t);
          if t[i] != x {
            assert t[i] in multiset(s[1..]);
            var k :| 0 <= k < |s[1..]| && s[1..][k] == t[i];
            assert s[k + 1] == t[i];
          }
        }
        ConsAscending(s[0], t, score);
      }
    }
  }

  lemma {:induction false} ConsAscending(x: Manga, t: seq<Manga>, score: Manga -> real)
    requires Ascending(t, score)
    requires forall i :: 0 <= i < |t| ==> score(x) <= score(t[i])
    ensures Ascending([x] + t, score)
  {
    forall i, j | 0 <= i < j < |[x] + t| ensures score(([x] + t)[i]) <= score(([x] + t)[j]) {
      assert ([x] + t)[j] == t[j - 1];
      if i > 0 {
        assert ([x] + t)[i] == t[i - 1];
      }
    }
  }

  lemma {:induction false} ConsDescending(x: Manga, t: seq<Manga>, score: Manga -> real)
    requires Descending(t, score)
    requires forall i :: 0 <= i < |t| ==> score(x) >= score(t[i])
    ensures Descending([x] + t, score)
  {
    forall i, j | 0 <= i < j < |[x] + t| ensures score(([x] + t)[i]) >= score(([x] + t)[j]) {
      assert ([x] + t)[j] == t[j - 1];
      if i > 0 {
        assert ([x] + t)[i] == t[i - 1];
      }
    }
  }

  /** A suffix of an ordered sequence is ordered the same way. */
  lemma {:induction false} TailSorted(s: seq<Manga>, score: Manga -> real)
    requires s != []
    ensures Ascending(s, score) ==> Ascending(s[1..], score)
    ensures Descending(s, score) ==> Descending(s[1..], score)
  {
    forall i, j | 0 <= i < j < |s| - 1 ensures s[1..][i] == s[i + 1] && s[1..][j] == s[j + 1] {
    }
  }

  lemma {:induction false} SortAscending(items: seq<Manga>, score: Manga -> real)
    ensures Ascending(SortByScore(items, score), score)
    decreases |items|
  {
    if items != [] {
      SortAscending(items[1..], score);
      InsertAscending(items[0], SortByScore(items[1..], score), score);
    }
  }

  /** Among the manga with a given score, insertion puts `x` in front. */
  lemma {:induction false} InsertStable(x: Manga, s: seq<Manga>, score: Manga -> real, v: real)
    ensures Filter(Insert(x, s, score), ScoreIs(v), score)
         == (if score(x) == v then [x] else []) + Filter(s, ScoreIs(v), score)
    decreases |s|
  {
    if s == [] {
    } else if score(x) <= score(s[0]) {
      assert ([x] + s)[1..] == s;
    } else {
      var t := Insert(x, s[1..], score);
      InsertStable(x, s[1..], score, v);
      assert ([s[0]] + t)[1..] == t;
    }
  }

  /** `sorted` is stable: the manga of each score keep their order. */
  lemma {:induction false} SortStable(items: seq<Manga>, score: Manga -> real, v: real)
    ensures Filter(SortByScore(items, score), ScoreIs(v), score) == Filter(items, ScoreIs(v), score)
    decreases |items|
  {
    if items != [] {
      SortStable(items[1..], score, v);
      InsertStable(items[0], SortByScore(items[1..], score), score, v);
    }
  }

  // ---------------------------------------------------------------------------
  // Reversal

  lemma {:induction false} ReverseAt(s: seq<Manga>, i: int)
    requires 0 <= i < |s|
    ensures Reverse(s)[i] == s[|s| - 1 - i]
    decreases |s|
  {
    if i < |s| - 1 {
      ReverseAt(s[1..], i);
    }
  }

  lemma {:induction false} ReverseAscending(s: seq<Manga>, score: Manga -> real)
    requires Ascending(s, score)
    ensures Descending(Reverse(s), score)
  {
    forall i, j | 0 <= i < j < |s| ensures score(Reverse(s)[i]) >= score(Reverse(s)[j]) {
      ReverseAt(s, i);
      ReverseAt(s, j);
    }
  }

  lemma {:induction false} ReverseMultiset(s: seq<Manga>)
    ensures multiset(Reverse(s)) == multiset(s)
    decreases |s|
  {
    if s != [] {
      ReverseMultiset(s[1..]);
      assert s == [s[0]] + s[1..];
    }
  }

  // ---------------------------------------------------------------------------
  // Filtering

  lemma {:induction false} FilterConcat(a: seq<Manga>, b: seq<Manga>, c: Cond, score: Manga -> real)
    ensures Filter(a + b, c, score) == Filter(a, c, score) + Filter(b, c, score)
    decreases |a|
  {
    if a == [] {
      assert a + b == b;
    } else {
      var ab := a + b;
      assert ab[0] == a[0] && ab[1..] == a[1..] + b;
      FilterConcat(a[1..], b, c, score);
      if Holds(c, score, a[0]) {
        calc {
          Filter(ab, c, score);
          [a[0]] + Filter(a[1..] + b, c, score);
          [a[0]] + (Filter(a[1..], c, score) + Filter(b, c, score));
          ([a[0]] + Filter(a[1..], c, score)) + Filter(b, c, score);
        }
      }
    }
  }

  lemma {:induction false} FilterReverse(s: seq<Manga>, c: Cond, score: Manga -> real)
    ensures Filter(Reverse(s), c, score) == Reverse(Filter(s, c, score))
    decreases |s|
  {
    if s != [] {
      FilterReverse(s[1..], c, score);
      FilterConcat(Reverse(s[1..]), [s[0]], c, score);
      assert Filter([s[0]], c, score) == if Holds(c, score, s[0]) then [s[0]] else [];
      if Holds(c, score, s[0]) {
        assert ([s[0]] + Filter(s[1..], c, score))[1..] == Filter(s[1..], c, score);
      }
    }
  }

  /** The cut and "has score `v`" can be applied in either order. */
  lemma {:induction false} FilterSwap(s: seq<Manga>, min: real, v: real, score: Manga -> real)
    ensures Filter(Filter(s, ScoreAbove(min), score), ScoreIs(v), score)
         == if v > min then Filter(s, ScoreIs(v), score) else []
    decreases |s|
  {
    if s != [] {
      FilterSwap(s[1..], min, v, score);
      if score(s[0]) > min {
        assert ([s[0]] + Filter(s[1..], ScoreAbove(min), score))[1..] == Filter(s[1..], ScoreAbove(min), score);
      }
    }
  }

  lemma {:induction false} FilterCount(s: seq<Manga>, c: Cond, score: Manga -> real, x: Manga)
    ensures multiset(Filter(s, c, score))[x] == if Holds(c, score, x) then multiset(s)[x] else 0
    decreases |s|
  {
    if s != [] {
      FilterCount(s[1..], c, score, x);
      assert s == [s[0]] + s[1..];
    }
  }

  lemma {:induction false} FilterDescending(s: seq<Manga>, c: Cond, score: Manga -> real)
    requires Descending(s, score)
    ensures Descending(Filter(s, c, score), score)
    decreases |s|
  {
    if s != [] {
      var t := Filter(s[1..], c, score);
      TailSorted(s, score);
      FilterDescending(s[1..], c, score);
      if Holds(c, score, s[0]) {
        forall i | 0 <= i < |t| ensures score(s[0]) >= score(t[i]) {
          assert t[i] in s[1..];
          var k :| 0 <= k < |s[1..]| && s[1..][k] == t[i];
          assert s[k + 1] == t[i];
        }
        ConsDescending(s[0], t, score);
      }
    }
  }
}
