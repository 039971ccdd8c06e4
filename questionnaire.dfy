/** `QuestionnaireAnalysis`: the object that owns the questionnaire table and
    runs the four analyses on it. */
module Questionnaire {
  import opened Records
  import AgeBins
  import Emails
  import Imputation
  import Grouping

  class QuestionnaireAnalysis {
    /** The path of the JSON file, as given to the constructor. */
    const dataFname: string
    /** `self.data`: absent until `read_data` has run. */
    var data: Option<Table>
    /** The `over 40` column of `self.data`, present once
        `correlate_gender_age` has added it. */
    var over40: Option<seq<bool>>

    ghost predicate Valid()
      reads this
    {
      over40.Some? ==> data.Some? && |over40.value| == |data.value|
    }

    /** `self.data` exists: every analysis needs it. */
    predicate Loaded()
      reads this
    {
      data.Some?
    }

    constructor (dataFname: string)
      ensures Valid() && this.dataFname == dataFname
      ensures data == None && over40 == None
    {
      this.dataFname := dataFname;
      data := None;
      over40 := None;
    }

    /** `read_data`: `parsed` stands for the records `pd.read_json` reads from
        the file. A new table replaces the old one, `over 40` column included. */
    method ReadData(parsed: Table)
      modifies this
      ensures Valid() && Loaded()
      ensures data == Some(parsed) && over40 == None
    {
      data := Some(parsed);
      over40 := None;
    }

    /** `people_in_bin`: ten counts over (0,10], ..., (90,100], and the bins. */
    function PeopleInBin(): (r: (seq<nat>, seq<AgeBins.Interval>))
      reads this
      requires Loaded()
      ensures r == AgeBins.PeopleInBin(data.value)
      ensures |r.0| == 10 && r.1 == AgeBins.Bins()
      ensures AgeBins.SumCounts(r.0) == AgeBins.AgesInRange(data.value)
    {
      AgeBins.PeopleInBin(data.value)
    }

    /** `remove_rows_without_mail`: a new frame of the rows that pass the email
        test, labels kept; `self.data` is not changed. */
    function RemoveRowsWithoutMail(): (f: seq<Emails.Labeled>)
      reads this
      requires Valid() && Loaded()
      ensures f == Emails.RemoveRowsWithoutMail(data.value, over40)
      ensures Emails.KeepValidEmails(f) == f
    {
      var t := data.value;
      var f := Emails.RemoveRowsWithoutMail(t, over40);
      Emails.KeepIdempotent(Emails.Frame(t, over40));
      f
    }

    /** `fill_na_with_mean`: the filled scores are written back into
        `self.data` and returned with the positions of the missing cells. */
    method FillNaWithMean() returns (filled: seq<seq<Option<real>>>, inds: seq<nat>)
      requires Valid() && Loaded()
      modifies this
      ensures Valid() && Loaded() && over40 == old(over40)
      ensures (filled, inds) == Imputation.FillNaWithMean(old(data.value))
      ensures data == Some(Imputation.FilledTable(old(data.value)))
      ensures |data.value| == |filled|
      ensures forall i :: 0 <= i < |data.value| ==> Scores(data.value[i]) == filled[i]
    {
      var t := data.value;
      filled, inds := Imputation.FillNaWithMean(t).0, Imputation.FillNaWithMean(t).1;
      data := Some(Imputation.FilledTable(t));
    }

    /** `correlate_gender_age`: adds the `over 40` column to `self.data` and
        returns the per-group means of q1..q5. */
    method CorrelateGenderAge() returns (g: map<Grouping.GroupKey, Grouping.GroupRow>)
      requires Valid() && Loaded()
      modifies this
      ensures Valid() && data == old(data)
      ensures over40 == Some(Grouping.Over40Column(data.value))
      ensures g == Grouping.CorrelateGenderAge(data.value)
    {
      over40 := Some(Grouping.Over40Column(data.value));
      g := Grouping.CorrelateGenderAge(data.value);
    }
  }
}
