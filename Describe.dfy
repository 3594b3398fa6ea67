/**
 Descriptive statistics over a column with missing cells, as pandas computes
 them by default: every statistic skips the missing cells, and a column with
 no present cell yields a missing result. Arithmetic is exact (`real`).
 */
module Describe {
  import opened Wrappers
  import opened Seqs

  /** The present readings of a column, in order. */
  function Present(col: seq<Option<real>>): (r: seq<real>)
    ensures |r| <= |col|
  {
    if col == [] then []
    else (if col[0].Some? then [col[0].value] else []) + Present(col[1..])
  }

  /** A reading is present exactly when some cell holds it. */
  lemma {:induction false} PresentMembers(col: seq<Option<real>>, x: real)
    ensures x in Present(col) <==> Some(x) in col
  {
    if col != [] {
      PresentMembers(col[1..], x);
      assert col == [col[0]] + col[1..];
    }
  }

  /** A reading occurs among the present readings as often as a cell holds it. */
  lemma {:induction false} PresentCount(col: seq<Option<real>>, x: real)
    ensures multiset(Present(col))[x] == multiset(col)[Some(x)]
  {
    if col != [] {
      PresentCount(col[1..], x);
      var head := if col[0].Some? then [col[0].value] else [];
      assert multiset(Present(col)) == multiset(head) + multiset(Present(col[1..]));
      assert col == [col[0]] + col[1..];
      assert multiset(col) == multiset{col[0]} + multiset(col[1..]);
    }
  }

  /** Skipping missing cells distributes over concatenation. */
  lemma {:induction false} PresentAppend(a: seq<Option<real>>, b: seq<Option<real>>)
    ensures Present(a + b) == Present(a) + Present(b)
  {
    if a == [] {
      assert a + b == b;
    } else {
      PresentAppend(a[1..], b);
      ConcatCons(a, b);
      ConcatAssoc(if a[0].Some? then [a[0].value] else [], Present(a[1..]), Present(b));
    }
  }

  function Sum(xs: seq<real>): real
  {
    if xs == [] then 0.0 else xs[0] + Sum(xs[1..])
  }

  /** The smallest reading of a non-empty sample. */
  function MinOf(xs: seq<real>): (r: real)
    requires xs != []
    ensures r in xs
    ensures forall i :: 0 <= i < |xs| ==> r <= xs[i]
  {
    if |xs| == 1 then xs[0]
    else
      var rest := MinOf(xs[1..]);
      assert forall i :: 1 <= i < |xs| ==> xs[i] == xs[1..][i - 1];
      if xs[0] <= rest then xs[0] else rest
  }

  /** The largest reading of a non-empty sample. */
  function MaxOf(xs: seq<real>): (r: real)
    requires xs != []
    ensures r in xs
    ensures forall i :: 0 <= i < |xs| ==> xs[i] <= r
  {
    if |xs| == 1 then xs[0]
    else
      var rest := MaxOf(xs[1..]);
      assert forall i :: 1 <= i < |xs| ==> xs[i] == xs[1..][i - 1];
      if rest <= xs[0] then xs[0] else rest
  }

  ghost predicate SortedAsc(s: seq<real>)
  {
    forall i, j :: 0 <= i < j < |s| ==> s[i] <= s[j]
  }

  /** Inserts `x` into an ascending sample, keeping it ascending. */
  function InsertAsc(x: real, s: seq<real>): (r: seq<real>)
    requires SortedAsc(s)
    ensures SortedAsc(r)
    ensures multiset(r) == multiset(s) + multiset{x}
  {
    if s == [] then [x]
    else if x <= s[0] then [x] + s
    else
      var t := InsertAsc(x, s[1..]);
      assert s == [s[0]] + s[1..];
      InsertAscHead(x, s, t);
      [s[0]] + t
  }

  lemma InsertAscHead(x: real, s: seq<real>, t: seq<real>)
    requires s != [] && SortedAsc(s) && s[0] < x
    requires SortedAsc(t) && multiset(t) == multiset(s[1..]) + multiset{x}
    ensures SortedAsc([s[0]] + t)
  {
    forall j | 0 <= j < |t|
      ensures s[0] <= t[j]
    {
      assert t[j] in multiset(t);
      if t[j] != x {
        assert t[j] in multiset(s[1..]);
        assert t[j] in s[1..];
      }
    }
  }

  /** The sample in ascending order. */
  function SortAsc(xs: seq<real>): (r: seq<real>)
    ensures SortedAsc(r)
    ensures multiset(r) == multiset(xs)
  {
    if xs == [] then []
    else
      assert xs == [xs[0]] + xs[1..];
      InsertAsc(xs[0], SortAsc(xs[1..]))
  }

  /** The median of a non-empty sample: the middle reading, or the mean of the two middle ones. */
  function MedianOf(xs: seq<real>): real
    requires xs != []
  {
    var s := SortAsc(xs);
    assert |s| == |multiset(s)| == |xs|;
    var n := |s|;
    if n % 2 == 1 then s[n / 2] else (s[n / 2 - 1] + s[n / 2]) / 2.0
  }

  /** Column mean over the present cells; missing when no cell is present. */
  function Mean(col: seq<Option<real>>): (r: Option<real>)
    ensures r.Some? <==> Present(col) != []
    ensures r.Some? ==> MinOf(Present(col)) <= r.value <= MaxOf(Present(col))
  {
    var xs := Present(col);
    if xs == [] then None
    else
      MeanOfBetween(xs);
      Some(Sum(xs) / |xs| as real)
  }

  /** Column median over the present cells; missing when no cell is present. */
  function Median(col: seq<Option<real>>): (r: Option<real>)
    ensures r.Some? <==> Present(col) != []
    ensures r.Some? ==> MinOf(Present(col)) <= r.value <= MaxOf(Present(col))
  {
    var xs := Present(col);
    if xs == [] then None
    else
      MedianOfBetween(xs);
      Some(MedianOf(xs))
  }

  /** Column minimum over the present cells; missing when no cell is present. */
  function Min(col: seq<Option<real>>): (r: Option<real>)
    ensures r.Some? <==> Present(col) != []
    ensures r.Some? ==> r.value in Present(col)
    ensures r.Some? ==> forall i :: 0 <= i < |Present(col)| ==> r.value <= Present(col)[i]
  {
    var xs := Present(col);
    if xs == [] then None else Some(MinOf(xs))
  }

  /** Column maximum over the present cells; missing when no cell is present. */
  function Max(col: seq<Option<real>>): (r: Option<real>)
    ensures r.Some? <==> Present(col) != []
    ensures r.Some? ==> r.value in Present(col)
    ensures r.Some? ==> forall i :: 0 <= i < |Present(col)| ==> Present(col)[i] <= r.value
  {
    var xs := Present(col);
    if xs == [] then None else Some(MaxOf(xs))
  }

  /** A sum of readings that all lie in [lo, hi] lies between n * lo and n * hi. */
  lemma {:induction false} SumBounds(xs: seq<real>, lo: real, hi: real)
    requires forall i :: 0 <= i < |xs| ==> lo <= xs[i] <= hi
    ensures |xs| as real * lo <= Sum(xs) <= |xs| as real * hi
  {
    if xs != [] {
      SumBounds(xs[1..], lo, hi);
      assert forall i :: 0 <= i < |xs[1..]| ==> xs[1..][i] == xs[i + 1];
    }
  }

  /** The mean of a non-empty sample lies between its minimum and its maximum. */
  lemma MeanOfBetween(xs: seq<real>)
    requires xs != []
    ensures MinOf(xs) <= Sum(xs) / |xs| as real <= MaxOf(xs)
  {
    var lo, hi := MinOf(xs), MaxOf(xs);
    SumBounds(xs, lo, hi);
    MeanWithin(xs, lo, hi);
  }

  lemma MeanWithin(xs: seq<real>, lo: real, hi: real)
    requires xs != []
    requires |xs| as real * lo <= Sum(xs) <= |xs| as real * hi
    ensures lo <= Sum(xs) / |xs| as real <= hi
  {
    DivideBounds(Sum(xs), |xs| as real, lo, hi);
  }

  lemma DivideBounds(s: real, n: real, lo: real, hi: real)
    requires n > 0.0 && n * lo <= s <= n * hi
    ensures lo <= s / n <= hi
  {
    var q := s / n;
    assert s == n * q;
    assert n * (q - lo) >= 0.0;
    assert n * (hi - q) >= 0.0;
  }

  /** The median of a non-empty sample lies between its minimum and its maximum. */
  lemma MedianOfBetween(xs: seq<real>)
    requires xs != []
    ensures MinOf(xs) <= MedianOf(xs) <= MaxOf(xs)
  {
    var s := SortAsc(xs);
    assert |s| == |multiset(s)| == |xs|;
    var n := |s|;
    forall k | 0 <= k < n
      ensures MinOf(xs) <= s[k] <= MaxOf(xs)
    {
      assert s[k] in multiset(xs);
      var i :| 0 <= i < |xs| && xs[i] == s[k];
    }
  }

  /** A missing cell, wherever it is inserted, changes none of the statistics. */
  lemma MissingCellIgnored(col: seq<Option<real>>, k: nat)
    requires k <= |col|
    ensures var col' := col[..k] + [None] + col[k..];
      Mean(col') == Mean(col) && Median(col') == Median(col) && Min(col') == Min(col) && Max(col') == Max(col)
  {
    var a, b := col[..k], col[k..];
    assert col == a + b;
    PresentAppend(a + [None], b);
    PresentAppend(a, [None]);
    PresentAppend(a, b);
    assert Present([None]) == [];
    assert Present(a) + [] == Present(a);
  }
}
