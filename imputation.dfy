/** `fill_na_with_mean`: every missing score of a row becomes the mean of
    that row's present scores (the transpose, `fillna(t_rows.mean())`,
    transpose back), and the positions of the missing cells are reported. */
module Imputation {
  import opened Records
  import opened Stats

  /** `fillna(v)` on one row: each missing cell gets `v`; a NaN `v` leaves it missing. */
  function FillWith(s: seq<Option<real>>, v: Option<real>): (f: seq<Option<real>>)
    ensures |f| == |s|
    ensures forall j :: 0 <= j < |s| ==> f[j] == if s[j].Some? then s[j] else v
  {
    if s == [] then [] else [if s[0].Some? then s[0] else v] + FillWith(s[1..], v)
  }

  /** One row filled with its own mean. */
  function FillRow(s: seq<Option<real>>): (f: seq<Option<real>>)
    ensures |f| == |s|
    ensures forall j :: 0 <= j < |s| && s[j].Some? ==> f[j] == s[j]
    ensures forall j :: 0 <= j < |s| && s[j].None? ==> f[j] == MeanOfPresent(s)
  {
    FillWith(s, MeanOfPresent(s))
  }

  /** A row with some present score has no gap left after filling; a row
      with none stays as it was, all missing. */
  lemma FillRowGaps(s: seq<Option<real>>)
    ensures MeanOfPresent(s).Some? ==> MissingCount(FillRow(s)) == 0
    ensures MeanOfPresent(s).None? ==> FillRow(s) == s
  {
    NothingMissing(FillRow(s));
  }

  lemma {:induction false} FilledLength(s: seq<Option<real>>, m: real)
    ensures |Present(FillWith(s, Some(m)))| == |s|
  {
    if s != [] {
      var f := FillWith(s, Some(m));
      FilledLength(s[1..], m);
      assert f[1..] == FillWith(s[1..], Some(m));
      assert f[0].Some?;
    }
  }

  /** `x` added up `k` times. */
  function Times(k: nat, x: real): real
  {
    if k == 0 then 0.0 else x + Times(k - 1, x)
  }

  lemma {:induction false} TimesIsProduct(k: nat, x: real)
    ensures Times(k, x) == k as real * x
  {
    if k > 0 {
      TimesIsProduct(k - 1, x);
      assert k as real * x == (k - 1) as real * x + x;
    }
  }

  lemma {:induction false} FilledSum(s: seq<Option<real>>, m: real)
    ensures Sum(Present(FillWith(s, Some(m)))) == Sum(Present(s)) + Times(MissingCount(s), m)
  {
    if s != [] {
      var f := FillWith(s, Some(m));
      FilledSum(s[1..], m);
      assert f[1..] == FillWith(s[1..], Some(m));
      if s[0].None? {
        assert Present(f) == [m] + Present(f[1..]);
      } else {
        assert Present(f) == [s[0].value] + Present(f[1..]);
      }
    }
  }

  /** Filling with the row mean keeps the row mean: the imputed row averages
      to the same value as the answered questions did. */
  lemma FillRowKeepsMean(s: seq<Option<real>>)
    ensures MeanOfPresent(FillRow(s)) == MeanOfPresent(s)
  {
    var m := MeanOfPresent(s);
    if m.Some? {
      var f := FillWith(s, m);
      assert FillRow(s) == f;
      FilledLength(s, m.value);
      FilledSum(s, m.value);
      MeanTimesCount(s);
      TimesAdd(|Present(s)|, MissingCount(s), m.value);
      MeanIs(f, m.value);
    }
  }

  lemma {:induction false} TimesAdd(a: nat, b: nat, x: real)
    ensures Times(a, x) + Times(b, x) == Times(a + b, x)
  {
    if a > 0 {
      TimesAdd(a - 1, b, x);
    }
  }

  lemma MeanTimesCount(s: seq<Option<real>>)
    requires MeanOfPresent(s).Some?
    ensures Sum(Present(s)) == Times(|Present(s)|, MeanOfPresent(s).value)
  {
    TimesIsProduct(|Present(s)|, MeanOfPresent(s).value);
  }

  lemma MeanIs(s: seq<Option<real>>, v: real)
    requires |Present(s)| > 0 && Sum(Present(s)) == Times(|Present(s)|, v)
    ensures MeanOfPresent(s) == Some(v)
  {
    TimesIsProduct(|Present(s)|, v);
    DivideBack(Sum(Present(s)), |Present(s)| as real, v);
  }

  lemma DivideBack(total: real, n: real, v: real)
    requires n > 0.0 && total == n * v
    ensures total / n == v
  {
  }

  /** Filling twice is filling once. */
  lemma FillRowIdempotent(s: seq<Option<real>>)
    ensures FillRow(FillRow(s)) == FillRow(s)
  {
    FillRowGaps(s);
    NothingMissing(FillRow(s));
  }

  /** An imputed score lies within any bounds that hold the row's present scores. */
  lemma FillRowWithin(s: seq<Option<real>>, lo: real, hi: real)
    requires forall j :: 0 <= j < |s| && s[j].Some? ==> lo <= s[j].value <= hi
    ensures forall j :: 0 <= j < |s| && FillRow(s)[j].Some? ==> lo <= FillRow(s)[j].value <= hi
  {
    MeanWithin(s, lo, hi);
  }

  /** The example row [5, NaN, 7, NaN, 9] is filled with 7 in both gaps. */
  lemma FillRowExample()
    ensures FillRow([Some(5.0), None, Some(7.0), None, Some(9.0)])
         == [Some(5.0), Some(7.0), Some(7.0), Some(7.0), Some(9.0)]
  {
    var s := [Some(5.0), None, Some(7.0), None, Some(9.0)];
    assert Present(s) == [5.0, 7.0, 9.0];
  }

  /** `n` copies of `x`. */
  function Repeat(x: nat, n: nat): (r: seq<nat>)
    ensures |r| == n && forall i :: 0 <= i < n ==> r[i] == x
  {
    if n == 0 then [] else [x] + Repeat(x, n - 1)
  }

  /** The number of missing scores of every row (the row sums of `isnull()`). */
  function GapCounts(t: Table): (c: seq<nat>)
    ensures |c| == |t|
    ensures forall i :: 0 <= i < |t| ==> c[i] == MissingCount(Scores(t[i]))
  {
    seq(|t|, i requires 0 <= i < |t| => MissingCount(Scores(t[i])))
  }

  /** A row's gap count is 0 exactly when all five scores are present, and 5
      exactly when none is. */
  lemma GapCountExtremes(t: Table, i: nat)
    requires i < |t|
    ensures GapCounts(t)[i] == 0 <==> forall j :: 0 <= j < 5 ==> Scores(t[i])[j].Some?
    ensures GapCounts(t)[i] == 5 <==> forall j :: 0 <= j < 5 ==> Scores(t[i])[j].None?
  {
    NothingMissing(Scores(t[i]));
    NothingPresent(Scores(t[i]));
  }

  /** Position `base + i` repeated `counts[i]` times, row by row: the row
      coordinates `nonzero()[0]` gives for a null mask with these row counts. */
  function Positions(counts: seq<nat>, base: nat): seq<nat>
  {
    if counts == [] then [] else Repeat(base, counts[0]) + Positions(counts[1..], base + 1)
  }

  lemma {:induction false} PositionsBounds(counts: seq<nat>, base: nat)
    ensures forall x :: x in Positions(counts, base) ==> base <= x < base + |counts|
  {
    if counts != [] {
      PositionsBounds(counts[1..], base + 1);
    }
  }

  lemma {:induction false} PositionsSorted(counts: seq<nat>, base: nat)
    ensures forall i, j :: 0 <= i < j < |Positions(counts, base)| ==>
              Positions(counts, base)[i] <= Positions(counts, base)[j]
  {
    if counts != [] {
      PositionsSorted(counts[1..], base + 1);
      PositionsBounds(counts[1..], base + 1);
      var head := Repeat(base, counts[0]);
      var rest := Positions(counts[1..], base + 1);
      forall j | 0 <= j < |rest| ensures base <= rest[j] {
        assert rest[j] in rest;
      }
    }
  }

  lemma {:induction false} PositionsCount(counts: seq<nat>, base: nat, r: nat)
    requires base <= r < base + |counts|
    ensures multiset(Positions(counts, base))[r] == counts[r - base]
  {
    var head := Repeat(base, counts[0]);
    var rest := Positions(counts[1..], base + 1);
    assert multiset(head + rest) == multiset(head) + multiset(rest);
    RepeatCount(base, counts[0], r);
    if r == base {
      PositionsBounds(counts[1..], base + 1);
      assert r !in rest;
    } else {
      PositionsCount(counts[1..], base + 1, r);
    }
  }

  lemma {:induction false} RepeatCount(x: nat, n: nat, r: nat)
    ensures multiset(Repeat(x, n))[r] == if r == x then n else 0
  {
    if n > 0 {
      RepeatCount(x, n - 1, r);
      assert Repeat(x, n) == [x] + Repeat(x, n - 1);
    }
  }

  /** The entries of `Positions(counts, 0)` are the row positions, each as
      often as its count says, in non-decreasing order. */
  lemma PositionsExact(counts: seq<nat>)
    ensures forall x :: x in Positions(counts, 0) ==> x < |counts|
    ensures forall i, j :: 0 <= i < j < |Positions(counts, 0)| ==>
              Positions(counts, 0)[i] <= Positions(counts, 0)[j]
    ensures forall i :: 0 <= i < |counts| ==> multiset(Positions(counts, 0))[i] == counts[i]
  {
    PositionsBounds(counts, 0);
    PositionsSorted(counts, 0);
    forall i | 0 <= i < |counts| ensures multiset(Positions(counts, 0))[i] == counts[i] {
      PositionsCount(counts, 0, i);
    }
  }

  /** The filled score table and the positions of the originally missing
      cells: one entry per missing cell, so a row appears as often as it has
      gaps, in non-decreasing order, each entry a row position of `t`. */
  function FillNaWithMean(t: Table): (r: (seq<seq<Option<real>>>, seq<nat>))
    ensures |r.0| == |t|
    ensures forall i :: 0 <= i < |t| ==> r.0[i] == FillRow(Scores(t[i]))
    ensures forall x :: x in r.1 ==> x < |t|
    ensures forall i, j :: 0 <= i < j < |r.1| ==> r.1[i] <= r.1[j]
    ensures forall i :: 0 <= i < |t| ==> multiset(r.1)[i] == MissingCount(Scores(t[i]))
  {
    PositionsExact(GapCounts(t));
    (seq(|t|, i requires 0 <= i < |t| => FillRow(Scores(t[i]))), Positions(GapCounts(t), 0))
  }

  /** A row with all five scores present is never reported. */
  lemma CompleteRowNotReported(t: Table, i: nat)
    requires i < |t| && forall j :: 0 <= j < 5 ==> Scores(t[i])[j].Some?
    ensures i !in FillNaWithMean(t).1
    ensures FillNaWithMean(t).0[i] == Scores(t[i])
  {
    NothingMissing(Scores(t[i]));
    NothingPresent(Scores(t[i]));
  }

  /** `self.data` after the write-back: every row with its scores filled and
      its other columns unchanged. */
  function FilledTable(t: Table): (u: Table)
    ensures |u| == |t|
    ensures forall i :: 0 <= i < |t| ==> u[i] == WithScores(t[i], FillNaWithMean(t).0[i])
  {
    seq(|t|, i requires 0 <= i < |t| => WithScores(t[i], FillRow(Scores(t[i]))))
  }

  /** Running the imputation on its own output changes nothing more. */
  lemma FilledTableIdempotent(t: Table)
    ensures FilledTable(FilledTable(t)) == FilledTable(t)
  {
    forall i | 0 <= i < |t| ensures FilledTable(FilledTable(t))[i] == FilledTable(t)[i] {
      FillRowIdempotent(Scores(t[i]));
    }
  }

  /** After the imputation, the only gaps left are in rows that had no
      score at all. */
  lemma OnlyEmptyRowsStayMissing(t: Table)
    ensures forall x :: x in FillNaWithMean(FilledTable(t)).1 ==>
              x < |t| && forall j :: 0 <= j < 5 ==> Scores(t[x])[j].None?
  {
    var u := FilledTable(t);
    forall x | x in FillNaWithMean(u).1 ensures x < |t| && forall j :: 0 <= j < 5 ==> Scores(t[x])[j].None? {
      assert multiset(FillNaWithMean(u).1)[x] > 0;
      FillRowGaps(Scores(t[x]));
    }
  }
}
