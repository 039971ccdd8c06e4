/** `correlate_gender_age` (its computing part): the `over 40` column, the
    grouping by `(gender, over 40)`, the NaN-skipping mean of every numeric
    column per group, and the removal of `id` and `age`. */
module Grouping {
  import opened Records
  import opened Stats

  /** A group: the gender and whether the age is above 40. */
  type GroupKey = (string, bool)

  /** One group's row of the result: column name to mean (None for NaN). */
  type GroupRow = map<Column, Option<real>>

  /** `age > 40`: strict, and a missing age (NaN) compares false. */
  predicate Over40(age: Option<real>)
  {
    age.Some? && age.value > 40.0
  }

  /** Forty is not over forty; a missing age is never over forty. */
  lemma Over40Boundary()
    ensures !Over40(Some(40.0)) && Over40(Some(40.5)) && !Over40(None)
  {
  }

  /** The column `self.data['age'] > 40`. */
  function Over40Column(t: Table): (c: seq<bool>)
    ensures |c| == |t|
    ensures forall i :: 0 <= i < |t| ==> c[i] == Over40(t[i].age)
  {
    seq(|t|, i requires 0 <= i < |t| => Over40(t[i].age))
  }

  /** The value of a numeric column in a row. */
  function Cell(r: Respondent, col: Column): Option<real>
  {
    match col
    case Id => Some(r.id as real)
    case Age => r.age
    case Q1 => r.q1
    case Q2 => r.q2
    case Q3 => r.q3
    case Q4 => r.q4
    case Q5 => r.q5
  }

  /** The cell of score column `j` is the row's `j`-th score, as `Scores` numbers them. */
  lemma ScoreCell(r: Respondent, j: nat)
    requires j < |ScoreColumns|
    ensures Cell(r, ScoreColumns[j]) == Scores(r)[j]
  {
  }

  /** The group key of row `i`. */
  function KeyOf(t: Table, flags: seq<bool>, i: nat): GroupKey
    requires |flags| == |t| && i < |t|
  {
    (t[i].gender, flags[i])
  }

  /** The rows of group `k`, in table order. */
  function Members(t: Table, flags: seq<bool>, k: GroupKey): (m: seq<Respondent>)
    requires |flags| == |t|
    ensures |m| <= |t|
  {
    if t == [] then []
    else (if (t[0].gender, flags[0]) == k then [t[0]] else []) + Members(t[1..], flags[1..], k)
  }

  /** A record is in group `k` exactly when some row with key `k` holds it. */
  lemma {:induction false} MembersExact(t: Table, flags: seq<bool>, k: GroupKey, x: Respondent)
    requires |flags| == |t|
    ensures x in Members(t, flags, k) <==> exists i :: 0 <= i < |t| && t[i] == x && KeyOf(t, flags, i) == k
  {
    if t != [] {
      MembersExact(t[1..], flags[1..], k, x);
      if exists i :: 0 <= i < |t| && t[i] == x && KeyOf(t, flags, i) == k {
        var i :| 0 <= i < |t| && t[i] == x && KeyOf(t, flags, i) == k;
        if i > 0 {
          assert t[1..][i - 1] == x && KeyOf(t[1..], flags[1..], i - 1) == k;
        }
      }
      if exists i :: 0 <= i < |t[1..]| && t[1..][i] == x && KeyOf(t[1..], flags[1..], i) == k {
        var i :| 0 <= i < |t[1..]| && t[1..][i] == x && KeyOf(t[1..], flags[1..], i) == k;
        assert t[i + 1] == x && KeyOf(t, flags, i + 1) == k;
      }
    }
  }

  /** Each record occurs in its own group as often as in the table, and in
      no other group; so `mean()` weighs every row of the group once. */
  lemma {:induction false} MembersMultiset(t: Table, k: GroupKey, x: Respondent)
    ensures multiset(Members(t, Over40Column(t), k))[x]
         == if (x.gender, Over40(x.age)) == k then multiset(t)[x] else 0
  {
    if t != [] {
      assert Over40Column(t)[1..] == Over40Column(t[1..]);
      MembersMultiset(t[1..], k, x);
      assert t == [t[0]] + t[1..];
    }
  }

  /** Every occurring key has at least one row. */
  lemma KeysHaveMembers(t: Table, flags: seq<bool>)
    requires |flags| == |t|
    ensures forall k :: k in GroupKeys(t, flags) ==> |Members(t, flags, k)| > 0
  {
    forall k | k in GroupKeys(t, flags) ensures |Members(t, flags, k)| > 0 {
      var i :| 0 <= i < |t| && KeyOf(t, flags, i) == k;
      MembersExact(t, flags, k, t[i]);
    }
  }

  /** The values of one column over some rows. */
  function ColumnValues(rows: seq<Respondent>, col: Column): (v: seq<Option<real>>)
    ensures |v| == |rows| && forall i :: 0 <= i < |rows| ==> v[i] == Cell(rows[i], col)
  {
    seq(|rows|, i requires 0 <= i < |rows| => Cell(rows[i], col))
  }

  /** The keys that occur in the table. */
  function GroupKeys(t: Table, flags: seq<bool>): set<GroupKey>
    requires |flags| == |t|
  {
    set i | 0 <= i < |t| :: KeyOf(t, flags, i)
  }

  /** The means of every numeric column over some rows. */
  function ColumnMeans(rows: seq<Respondent>): (row: GroupRow)
    ensures row.Keys == {Id, Age, Q1, Q2, Q3, Q4, Q5}
    ensures forall c :: c in row ==> row[c] == MeanOfPresent(ColumnValues(rows, c))
    ensures forall c :: c in row ==> (row[c].None? <==> forall i :: 0 <= i < |rows| ==> Cell(rows[i], c).None?)
  {
    map[Id := MeanOfPresent(ColumnValues(rows, Id)),
        Age := MeanOfPresent(ColumnValues(rows, Age)),
        Q1 := MeanOfPresent(ColumnValues(rows, Q1)),
        Q2 := MeanOfPresent(ColumnValues(rows, Q2)),
        Q3 := MeanOfPresent(ColumnValues(rows, Q3)),
        Q4 := MeanOfPresent(ColumnValues(rows, Q4)),
        Q5 := MeanOfPresent(ColumnValues(rows, Q5))]
  }

  /** `groupby(['gender', 'over 40']).mean()`: one row per occurring key,
      holding the mean of every numeric column over the group's rows. */
  function GroupByMean(t: Table, flags: seq<bool>): (g: map<GroupKey, GroupRow>)
    requires |flags| == |t|
    ensures g.Keys == GroupKeys(t, flags)
    ensures forall k :: k in g ==> g[k] == ColumnMeans(Members(t, flags, k))
    ensures forall i :: 0 <= i < |t| ==> KeyOf(t, flags, i) in g
    ensures forall k :: k in g ==> |Members(t, flags, k)| > 0
  {
    KeysHaveMembers(t, flags);
    map k | k in GroupKeys(t, flags) :: ColumnMeans(Members(t, flags, k))
  }

  /** `DataFrame.pop(col)`: the column is removed from every row. */
  function Pop(g: map<GroupKey, GroupRow>, col: Column): (g': map<GroupKey, GroupRow>)
    ensures g'.Keys == g.Keys
    ensures forall k :: k in g' ==> col !in g'[k] && g'[k].Keys == g[k].Keys - {col}
    ensures forall k, c :: k in g' && c in g'[k] ==> g'[k][c] == g[k][c]
  {
    map k | k in g :: g[k] - {col}
  }

  /** The result of `correlate_gender_age`: one row per occurring
      `(gender, over 40)` key, with exactly the columns q1..q5, each the mean
      of that question's present scores over the group. */
  function CorrelateGenderAge(t: Table): (g: map<GroupKey, GroupRow>)
    ensures g.Keys == GroupKeys(t, Over40Column(t))
    ensures forall k :: k in g ==> g[k].Keys == {Q1, Q2, Q3, Q4, Q5}
    ensures forall k, c :: k in g && c in g[k] ==>
              g[k][c] == MeanOfPresent(ColumnValues(Members(t, Over40Column(t), k), c))
    ensures forall k :: k in g ==> |Members(t, Over40Column(t), k)| > 0
  {
    var grouped := GroupByMean(t, Over40Column(t));
    var g := Pop(Pop(grouped, Id), Age);
    ScoreColumnsRemain();
    g
  }

  lemma ScoreColumnsRemain()
    ensures {Id, Age, Q1, Q2, Q3, Q4, Q5} - {Id} - {Age} == {Q1, Q2, Q3, Q4, Q5}
  {
  }

  /** Every row belongs to the group of its own key, and that group is in the result. */
  lemma RowInOwnGroup(t: Table, i: nat)
    requires i < |t|
    ensures (t[i].gender, Over40(t[i].age)) in CorrelateGenderAge(t)
    ensures t[i] in Members(t, Over40Column(t), (t[i].gender, Over40(t[i].age)))
  {
    var flags := Over40Column(t);
    assert KeyOf(t, flags, i) in GroupKeys(t, flags);
    MembersExact(t, flags, KeyOf(t, flags, i), t[i]);
  }

  /** If every present value of column `c` lies in [lo, hi], so does the
      mean of `c` in every group. */
  lemma GroupMeanWithin(t: Table, c: Column, lo: real, hi: real)
    requires forall i :: 0 <= i < |t| && Cell(t[i], c).Some? ==> lo <= Cell(t[i], c).value <= hi
    ensures forall k :: (k in CorrelateGenderAge(t) && c in CorrelateGenderAge(t)[k]
              && CorrelateGenderAge(t)[k][c].Some?) ==> lo <= CorrelateGenderAge(t)[k][c].value <= hi
  {
    var g: map<GroupKey, GroupRow> := CorrelateGenderAge(t);
    forall k | k in g && c in g[k] && g[k][c].Some? ensures lo <= g[k][c].value <= hi {
      GroupMeanWithinOne(t, c, lo, hi, k);
    }
  }

  lemma GroupMeanWithinOne(t: Table, c: Column, lo: real, hi: real, k: GroupKey)
    requires forall i :: 0 <= i < |t| && Cell(t[i], c).Some? ==> lo <= Cell(t[i], c).value <= hi
    ensures MeanOfPresent(ColumnValues(Members(t, Over40Column(t), k), c)).Some? ==>
              lo <= MeanOfPresent(ColumnValues(Members(t, Over40Column(t), k), c)).value <= hi
  {
    var flags := Over40Column(t);
    var m := Members(t, flags, k);
    var v := ColumnValues(m, c);
    forall p | 0 <= p < |v| && v[p].Some? ensures lo <= v[p].value <= hi {
      MemberIsRow(t, flags, k, m, p);
    }
    MeanWithin(v, lo, hi);
  }

  /** One question's scores over some rows, read through `Scores`. */
  function ScoreValues(rows: seq<Respondent>, j: nat): (v: seq<Option<real>>)
    requires j < |ScoreColumns|
    ensures |v| == |rows| && forall p :: 0 <= p < |rows| ==> v[p] == Scores(rows[p])[j]
  {
    seq(|rows|, p requires 0 <= p < |rows| => Scores(rows[p])[j])
  }

  /** The group mean of question `j + 1` is the NaN-skipping mean of the
      group's `j`-th scores, the same row view the imputation fills. */
  lemma GroupScoreMean(t: Table, k: GroupKey, j: nat)
    requires k in GroupKeys(t, Over40Column(t)) && j < |ScoreColumns|
    ensures ScoreColumns[j] in CorrelateGenderAge(t)[k]
    ensures CorrelateGenderAge(t)[k][ScoreColumns[j]]
         == MeanOfPresent(ScoreValues(Members(t, Over40Column(t), k), j))
  {
    var g := CorrelateGenderAge(t);
    var m := Members(t, Over40Column(t), k);
    var c := ScoreColumns[j];
    ScoreColumnIsQuestion(j);
    assert c in g[k];
    assert g[k][c] == MeanOfPresent(ColumnValues(m, c));
    ScoreColumnValues(m, j);
  }

  lemma ScoreColumnIsQuestion(j: nat)
    requires j < |ScoreColumns|
    ensures ScoreColumns[j] in {Q1, Q2, Q3, Q4, Q5}
  {
  }

  lemma ScoreColumnValues(rows: seq<Respondent>, j: nat)
    requires j < |ScoreColumns|
    ensures ColumnValues(rows, ScoreColumns[j]) == ScoreValues(rows, j)
  {
    forall p | 0 <= p < |rows| ensures ColumnValues(rows, ScoreColumns[j])[p] == ScoreValues(rows, j)[p] {
      ScoreCell(rows[p], j);
    }
  }

  lemma MemberIsRow(t: Table, flags: seq<bool>, k: GroupKey, m: seq<Respondent>, p: nat)
    requires |flags| == |t| && m == Members(t, flags, k) && p < |m|
    ensures exists i :: 0 <= i < |t| && t[i] == m[p]
  {
    MembersExact(t, flags, k, m[p]);
  }

  /** Two men aged 45 and 20 form the groups (M, over 40) and (M, not over
      40), each holding the other columns' values of its one member: with q1
      scores 10 and 20, the q1 means are 10 and 20. */
  lemma TwoMenExample(older: Respondent, younger: Respondent)
    requires older.gender == "M" && older.age == Some(45.0)
    requires younger.gender == "M" && younger.age == Some(20.0)
    ensures CorrelateGenderAge([older, younger]).Keys == {("M", true), ("M", false)}
    ensures forall c :: c in CorrelateGenderAge([older, younger])[("M", true)] ==>
              CorrelateGenderAge([older, younger])[("M", true)][c] == Cell(older, c)
    ensures forall c :: c in CorrelateGenderAge([older, younger])[("M", false)] ==>
              CorrelateGenderAge([older, younger])[("M", false)][c] == Cell(younger, c)
  {
    TwoMenGroups(older, younger);
    forall c: Column
      ensures MeanOfPresent(ColumnValues([older], c)) == Cell(older, c)
      ensures MeanOfPresent(ColumnValues([younger], c)) == Cell(younger, c)
    {
      SingleMean(older, c);
      SingleMean(younger, c);
    }
  }

  lemma TwoMenGroups(older: Respondent, younger: Respondent)
    requires older.gender == "M" && older.age == Some(45.0)
    requires younger.gender == "M" && younger.age == Some(20.0)
    ensures Over40Column([older, younger]) == [true, false]
    ensures GroupKeys([older, younger], [true, false]) == {("M", true), ("M", false)}
    ensures Members([older, younger], [true, false], ("M", true)) == [older]
    ensures Members([older, younger], [true, false], ("M", false)) == [younger]
  {
    var t := [older, younger];
    var flags := [true, false];
    assert KeyOf(t, flags, 0) == ("M", true);
    assert KeyOf(t, flags, 1) == ("M", false);
    assert t[1..] == [younger] && flags[1..] == [false];
    assert Members([younger], [false], ("M", true)) == [];
    assert Members([younger], [false], ("M", false)) == [younger];
  }

  /** The mean over a single row is that row's value. */
  lemma SingleMean(r: Respondent, c: Column)
    ensures MeanOfPresent(ColumnValues([r], c)) == Cell(r, c)
  {
    var v := ColumnValues([r], c);
    assert v == [Cell(r, c)];
    assert v[1..] == [];
    if Cell(r, c).Some? {
      var x := Cell(r, c).value;
      assert Present(v) == [x];
      assert Sum([x]) == x by {
        assert [x][1..] == [];
      }
    }
  }
}
