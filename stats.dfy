/** Sums and NaN-skipping means over columns or rows of optional reals, the
    way pandas' `mean()` treats missing cells. */
module Stats {
  import opened Records

  function Sum(s: seq<real>): real
  {
    if s == [] then 0.0 else s[0] + Sum(s[1..])
  }

  /** The present values of `s`, in order (the cells `mean()` averages). */
  function Present(s: seq<Option<real>>): (p: seq<real>)
    ensures |p| <= |s|
  {
    if s == [] then []
    else if s[0].Some? then [s[0].value] + Present(s[1..])
    else Present(s[1..])
  }

  /** The number of missing cells of `s`. */
  function MissingCount(s: seq<Option<real>>): (n: nat)
    ensures n + |Present(s)| == |s|
  {
    if s == [] then 0 else (if s[0].None? then 1 else 0) + MissingCount(s[1..])
  }

  /** A row has no present value exactly when every cell is missing. */
  lemma {:induction false} NothingPresent(s: seq<Option<real>>)
    ensures |Present(s)| == 0 <==> forall j :: 0 <= j < |s| ==> s[j].None?
  {
    if s != [] {
      NothingPresent(s[1..]);
      assert forall j :: 1 <= j < |s| ==> s[j] == s[1..][j - 1];
    }
  }

  /** A row has no missing cell exactly when every cell is present. */
  lemma {:induction false} NothingMissing(s: seq<Option<real>>)
    ensures MissingCount(s) == 0 <==> forall j :: 0 <= j < |s| ==> s[j].Some?
  {
    if s != [] {
      NothingMissing(s[1..]);
      assert forall j :: 1 <= j < |s| ==> s[j] == s[1..][j - 1];
    }
  }

  /** The mean of the present values, or `None` (NaN) when there are none. */
  function MeanOfPresent(s: seq<Option<real>>): (m: Option<real>)
    ensures m.None? <==> forall j :: 0 <= j < |s| ==> s[j].None?
  {
    var p := Present(s);
    NothingPresent(s);
    if |p| == 0 then None else Some(Sum(p) / |p| as real)
  }

  lemma {:induction false} PresentWithin(s: seq<Option<real>>, lo: real, hi: real)
    requires forall j :: 0 <= j < |s| && s[j].Some? ==> lo <= s[j].value <= hi
    ensures forall i :: 0 <= i < |Present(s)| ==> lo <= Present(s)[i] <= hi
  {
    if s != [] {
      PresentWithin(s[1..], lo, hi);
    }
  }

  lemma {:induction false} SumWithin(p: seq<real>, lo: real, hi: real)
    requires forall i :: 0 <= i < |p| ==> lo <= p[i] <= hi
    ensures |p| as real * lo <= Sum(p) <= |p| as real * hi
  {
    if p != [] {
      SumWithin(p[1..], lo, hi);
    }
  }

  /** A mean of present values lies between any bounds of those values: an
      imputed or grouped score never leaves the range of the scores it comes from. */
  lemma MeanWithin(s: seq<Option<real>>, lo: real, hi: real)
    requires forall j :: 0 <= j < |s| && s[j].Some? ==> lo <= s[j].value <= hi
    ensures MeanOfPresent(s).Some? ==> lo <= MeanOfPresent(s).value <= hi
  {
    var p := Present(s);
    if |p| > 0 {
      PresentWithin(s, lo, hi);
      SumWithin(p, lo, hi);
      QuotientWithin(Sum(p), |p| as real, lo, hi);
    }
  }

  lemma QuotientWithin(total: real, n: real, lo: real, hi: real)
    requires n > 0.0 && n * lo <= total <= n * hi
    ensures lo <= total / n <= hi
  {
    var q := total / n;
    assert q * n == total;
  }
}
