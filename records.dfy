/** The row type of the questionnaire table, as `read_data` loads it from the
    JSON file: one record per respondent. A missing (NaN) cell is `None`. */
module Records {

  datatype Option<+T> = None | Some(value: T)

  /** One respondent: the columns `id, age, gender, email, q1..q5`. */
  datatype Respondent = Respondent(
    id: int,
    age: Option<real>,
    gender: string,
    email: string,
    q1: Option<real>,
    q2: Option<real>,
    q3: Option<real>,
    q4: Option<real>,
    q5: Option<real>)

  /** The table, in row order; row `i` carries the index label `i`. */
  type Table = seq<Respondent>

  /** The numeric columns, by name: `id`, `age` and `q1`..`q5`. */
  datatype Column = Id | Age | Q1 | Q2 | Q3 | Q4 | Q5

  /** The score columns in column order (the label slice `'q1':'q5'`). */
  const ScoreColumns: seq<Column> := [Q1, Q2, Q3, Q4, Q5]

  /** The five scores of a respondent, in column order. */
  function Scores(r: Respondent): (s: seq<Option<real>>)
    ensures |s| == |ScoreColumns|
    ensures s[0] == r.q1 && s[1] == r.q2 && s[2] == r.q3 && s[3] == r.q4 && s[4] == r.q5
  {
    [r.q1, r.q2, r.q3, r.q4, r.q5]
  }

  /** The respondent with its five scores overwritten by `s` and every other
      column left as it was (the assignment to `loc[:, 'q1':'q5']`). */
  function WithScores(r: Respondent, s: seq<Option<real>>): (r': Respondent)
    requires |s| == |ScoreColumns|
    ensures Scores(r') == s
    ensures r'.id == r.id && r'.age == r.age && r'.gender == r.gender && r'.email == r.email
  {
    r.(q1 := s[0], q2 := s[1], q3 := s[2], q4 := s[3], q5 := s[4])
  }
}
