/** `people_in_bin`: the ages cut into ten fixed intervals and counted per
    interval. */
module AgeBins {
  import opened Records

  /** The interval (lo, hi]: `IntervalIndex.from_tuples` closes intervals on the right. */
  datatype Interval = Interval(lo: int, hi: int)

  predicate InInterval(a: real, b: Interval)
  {
    b.lo as real < a <= b.hi as real
  }

  /** The ten bins, ordered by their start. */
  function Bins(): (bins: seq<Interval>)
    ensures |bins| == 10
    ensures forall k :: 0 <= k < |bins| ==> bins[k] == Interval(10 * k, 10 * k + 10)
  {
    [Interval(0, 10), Interval(10, 20), Interval(20, 30), Interval(30, 40), Interval(40, 50),
     Interval(50, 60), Interval(60, 70), Interval(70, 80), Interval(80, 90), Interval(90, 100)]
  }

  /** The age lies in bin `k`. */
  predicate InBin(age: Option<real>, k: nat)
  {
    k < |Bins()| && age.Some? && InInterval(age.value, Bins()[k])
  }

  /** The first bin from `k` on that holds `a`: the interval lookup `pd.cut` does. */
  function FindBin(a: real, k: nat): Option<nat>
    decreases |Bins()| - k
  {
    if k >= |Bins()| then None
    else if InInterval(a, Bins()[k]) then Some(k)
    else FindBin(a, k + 1)
  }

  /** The category `pd.cut` gives an age: its bin, or NaN (`None`) for a
      missing age and one outside every bin. */
  function BinCode(age: Option<real>): Option<nat>
  {
    match age
    case None => None
    case Some(a) => FindBin(a, 0)
  }

  lemma {:induction false} FindBinExact(a: real, k: nat, b: nat)
    requires k <= |Bins()|
    requires forall j :: 0 <= j < k ==> !InInterval(a, Bins()[j])
    ensures FindBin(a, k) == Some(b) <==> b < |Bins()| && InInterval(a, Bins()[b])
    decreases |Bins()| - k
  {
    if k < |Bins()| && !InInterval(a, Bins()[k]) {
      FindBinExact(a, k + 1, b);
    }
  }

  /** An age's category is bin `k` exactly when the age lies in (10k, 10k+10]. */
  lemma BinCodeExact(age: Option<real>, k: nat)
    ensures BinCode(age) == Some(k) <==> InBin(age, k)
  {
    if age.Some? {
      FindBinExact(age.value, 0, k);
    }
  }

  /** Missing ages, ages <= 0 and ages > 100 fall in no bin. */
  lemma BinCodeNone(age: Option<real>)
    ensures BinCode(age).None? <==> age.None? || age.value <= 0.0 || age.value > 100.0
  {
    if age.Some? && 0.0 < age.value <= 100.0 {
      var a := age.value;
      var k := 0;
      while !(a <= 10.0 * (k + 1) as real)
        invariant 0 <= k < 10 && a > 10.0 * k as real
        decreases 10 - k
      {
        k := k + 1;
      }
      assert InBin(age, k);
      BinCodeExact(age, k);
    } else if age.Some? {
      forall k: nat ensures BinCode(age) != Some(k) {
        BinCodeExact(age, k);
      }
    }
  }

  /** An age of exactly 40 is counted in (30, 40], not in (40, 50]. */
  lemma FortyInThirdBin()
    ensures BinCode(Some(40.0)) == Some(3)
  {
    BinCodeExact(Some(40.0), 3);
  }

  /** `value_counts()` of one category. */
  function CountCode(codes: seq<Option<nat>>, k: nat): nat
  {
    if codes == [] then 0 else (if codes[0] == Some(k) then 1 else 0) + CountCode(codes[1..], k)
  }

  function Codes(t: Table): (codes: seq<Option<nat>>)
    ensures |codes| == |t|
    ensures forall i :: 0 <= i < |t| ==> codes[i] == BinCode(t[i].age)
  {
    if t == [] then [] else [BinCode(t[0].age)] + Codes(t[1..])
  }

  /** The number of rows whose age lies in bin `k`. */
  function AgesInBin(t: Table, k: nat): nat
  {
    if t == [] then 0 else (if InBin(t[0].age, k) then 1 else 0) + AgesInBin(t[1..], k)
  }

  /** The number of rows whose age lies in (0, 100]. */
  function AgesInRange(t: Table): nat
  {
    if t == [] then 0
    else (if t[0].age.Some? && 0.0 < t[0].age.value <= 100.0 then 1 else 0) + AgesInRange(t[1..])
  }

  function SumCounts(counts: seq<nat>): nat
  {
    if counts == [] then 0 else counts[0] + SumCounts(counts[1..])
  }

  /** The ten per-bin counts, in bin order, and the bins. */
  function PeopleInBin(t: Table): (r: (seq<nat>, seq<Interval>))
    ensures |r.0| == 10 && r.1 == Bins()
    ensures forall k :: 0 <= k < 10 ==> r.0[k] == AgesInBin(t, k)
    ensures SumCounts(r.0) == AgesInRange(t)
  {
    var counts := seq(10, k requires 0 <= k < 10 => CountCode(Codes(t), k));
    forall k | 0 <= k < 10 ensures counts[k] == AgesInBin(t, k) {
      CountsAreAges(t, k);
    }
    CountsSumToRange(t, counts);
    (counts, Bins())
  }

  lemma {:induction false} CountsAreAges(t: Table, k: nat)
    ensures CountCode(Codes(t), k) == AgesInBin(t, k)
  {
    if t != [] {
      assert Codes(t)[1..] == Codes(t[1..]);
      BinCodeExact(t[0].age, k);
      CountsAreAges(t[1..], k);
    }
  }

  /** Sum over the bins from `k` on of one row's contribution. */
  function RowShare(age: Option<real>, k: nat): nat
    decreases |Bins()| - k
  {
    if k >= |Bins()| then 0 else (if InBin(age, k) then 1 else 0) + RowShare(age, k + 1)
  }

  lemma {:induction false} RowShareAt(age: Option<real>, k: nat)
    ensures RowShare(age, k) == if BinCode(age).Some? && BinCode(age).value >= k then 1 else 0
    decreases |Bins()| - k
  {
    BinCodeExact(age, k);
    if k < |Bins()| {
      RowShareAt(age, k + 1);
      if InBin(age, k) {
        assert BinCode(age) == Some(k);
      }
    } else if BinCode(age).Some? {
      BinCodeExact(age, BinCode(age).value);
    }
  }

  /** Sum of the counts of bins k..9 over the rows of t. */
  function TailSum(t: Table, k: nat): nat
    decreases |Bins()| - k
  {
    if k >= |Bins()| then 0 else AgesInBin(t, k) + TailSum(t, k + 1)
  }

  lemma {:induction false} TailSumSplit(t: Table, k: nat)
    requires t != []
    ensures TailSum(t, k) == RowShare(t[0].age, k) + TailSum(t[1..], k)
    decreases |Bins()| - k
  {
    if k < |Bins()| {
      TailSumSplit(t, k + 1);
    }
  }

  lemma {:induction false} TailSumIsRange(t: Table)
    ensures TailSum(t, 0) == AgesInRange(t)
  {
    if t == [] {
      TailSumEmpty(0);
    } else {
      TailSumSplit(t, 0);
      RowShareAt(t[0].age, 0);
      BinCodeNone(t[0].age);
      TailSumIsRange(t[1..]);
    }
  }

  lemma {:induction false} TailSumEmpty(k: nat)
    ensures TailSum([], k) == 0
    decreases |Bins()| - k
  {
    if k < |Bins()| {
      TailSumEmpty(k + 1);
    }
  }

  lemma {:induction false} SumIsTail(t: Table, counts: seq<nat>, k: nat)
    requires k <= 10 && |counts| == 10 - k
    requires forall j :: 0 <= j < |counts| ==> counts[j] == CountCode(Codes(t), k + j)
    ensures SumCounts(counts) == TailSum(t, k)
    decreases |counts|
  {
    if counts != [] {
      CountsAreAges(t, k);
      SumIsTail(t, counts[1..], k + 1);
    }
  }

  /** Every age in (0, 100] is counted in exactly one bin: the counts add up
      to the number of such ages. */
  lemma CountsSumToRange(t: Table, counts: seq<nat>)
    requires |counts| == 10
    requires forall k :: 0 <= k < 10 ==> counts[k] == CountCode(Codes(t), k)
    ensures SumCounts(counts) == AgesInRange(t)
  {
    SumIsTail(t, counts, 0);
    TailSumIsRange(t);
  }
}
