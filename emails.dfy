/** `remove_rows_without_mail`: keep the rows whose email passes
    `str.contains('@' and '.co')`. The Python expression `'@' and '.co'` is
    `'.co'`, and `str.contains` reads it as a regular expression, so the test
    is a search for any character other than a newline followed by `co`. */
module Emails {
  import opened Records

  /** A table row together with its index label, and its `over 40` cell when
      that column has been added. */
  datatype Labeled = Labeled(index: nat, row: Respondent, over40: Option<bool>)

  /** `re.search('.co', e)`: try the pattern at every start position. */
  function SearchDotCo(e: string): bool
  {
    |e| >= 3 && ((e[0] != '\n' && e[1] == 'c' && e[2] == 'o') || SearchDotCo(e[1..]))
  }

  /** `co` occurs at position `i`, after a character that `.` matches. */
  predicate CoAfterAnyChar(e: string, i: int)
  {
    1 <= i && i + 2 <= |e| && e[i - 1] != '\n' && e[i..i + 2] == "co"
  }

  /** A successful search has found an occurrence. */
  lemma {:induction false} SearchFinds(e: string) returns (i: int)
    requires SearchDotCo(e)
    ensures CoAfterAnyChar(e, i)
  {
    if e[0] != '\n' && e[1] == 'c' && e[2] == 'o' {
      i := 1;
      assert e[i..i + 2] == [e[1], e[2]];
    } else {
      var j := SearchFinds(e[1..]);
      i := j + 1;
      assert e[i..i + 2] == e[1..][j..j + 2];
    }
  }

  /** Every occurrence is found by the search. */
  lemma {:induction false} SearchFindsEvery(e: string, i: int)
    requires CoAfterAnyChar(e, i)
    ensures SearchDotCo(e)
  {
    if i > 1 {
      assert e[1..][i - 1..i + 1] == e[i..i + 2];
      SearchFindsEvery(e[1..], i - 1);
    } else {
      assert e[1] == e[i..i + 2][0] && e[2] == e[i..i + 2][1];
    }
  }

  lemma SearchDotCoExact(e: string)
    ensures SearchDotCo(e) <==> exists i :: CoAfterAnyChar(e, i)
  {
    if SearchDotCo(e) {
      var i := SearchFinds(e);
    }
    if exists i :: CoAfterAnyChar(e, i) {
      var i :| CoAfterAnyChar(e, i);
      SearchFindsEvery(e, i);
    }
  }

  /** An email without the letter `c` never passes. */
  lemma {:induction false} NoCIsDropped(e: string)
    requires forall j :: 0 <= j < |e| ==> e[j] != 'c'
    ensures !SearchDotCo(e)
  {
    if |e| >= 3 {
      assert e[1] != 'c';
      NoCIsDropped(e[1..]);
    }
  }

  /** The email test does not look for `@`: an address without one is
      kept, and no dot is needed before `co` either. */
  lemma AtSignNotNeeded()
    ensures SearchDotCo("me.com")
    ensures SearchDotCo("xco")
  {
    assert CoAfterAnyChar("me.com", 3);
    SearchFindsEvery("me.com", 3);
  }

  /** An `@` does not save an address without `co`. */
  lemma AtSignNotEnough()
    ensures !SearchDotCo("a@b.org")
  {
    NoCIsDropped("a@b.org");
  }

  /** The `.` of the pattern does not match a newline. */
  lemma NewlineBeforeCoIsDropped()
    ensures !SearchDotCo("\nco")
  {
  }

  /** The rows of `f` whose email passes the test, in their order and with
      their labels (`where` then `dropna(subset=['email'])`). */
  function KeepValidEmails(f: seq<Labeled>): (g: seq<Labeled>)
    ensures |g| <= |f|
    ensures forall x :: x in g <==> x in f && SearchDotCo(x.row.email)
  {
    if f == [] then []
    else if SearchDotCo(f[0].row.email) then [f[0]] + KeepValidEmails(f[1..])
    else KeepValidEmails(f[1..])
  }

  /** The labels strictly increase along `f`. */
  predicate Increasing(f: seq<Labeled>)
  {
    forall i, j :: 0 <= i < j < |f| ==> f[i].index < f[j].index
  }

  lemma {:induction false} KeepPreservesOrder(f: seq<Labeled>)
    requires Increasing(f)
    ensures Increasing(KeepValidEmails(f))
  {
    if f != [] {
      var g := KeepValidEmails(f[1..]);
      KeepPreservesOrder(f[1..]);
      forall x | x in g ensures f[0].index < x.index {
        var j :| 0 <= j < |f[1..]| && f[1..][j] == x;
        assert f[j + 1] == x;
      }
    }
  }

  /** Filtering an already filtered table changes nothing. */
  lemma {:induction false} KeepIdempotent(f: seq<Labeled>)
    ensures KeepValidEmails(KeepValidEmails(f)) == KeepValidEmails(f)
  {
    if f != [] {
      KeepIdempotent(f[1..]);
    }
  }

  /** The stored table as a frame: row `i` has label `i`. */
  function Frame(t: Table, over40: Option<seq<bool>>): (f: seq<Labeled>)
    requires over40.Some? ==> |over40.value| == |t|
    ensures |f| == |t| && Increasing(f)
    ensures forall i :: 0 <= i < |t| ==> f[i].index == i && f[i].row == t[i]
    ensures forall i :: 0 <= i < |t| ==> f[i].over40 == if over40.Some? then Some(over40.value[i]) else None
  {
    seq(|t|, i requires 0 <= i < |t| =>
      Labeled(i, t[i], if over40.Some? then Some(over40.value[i]) else None))
  }

  /** The surviving rows: exactly the rows whose email passes the test, each
      with its original index and contents, in the original order. */
  function RemoveRowsWithoutMail(t: Table, over40: Option<seq<bool>>): (g: seq<Labeled>)
    requires over40.Some? ==> |over40.value| == |t|
    ensures Increasing(g)
    ensures forall x :: x in g ==> x.index < |t| && x.row == t[x.index] && SearchDotCo(x.row.email)
    ensures forall i :: 0 <= i < |t| ==> (SearchDotCo(t[i].email) <==> exists x :: x in g && x.index == i)
    ensures forall x :: x in g ==>
              x.over40 == if over40.Some? then Some(over40.value[x.index]) else None
  {
    var f := Frame(t, over40);
    KeepPreservesOrder(f);
    var g := KeepValidEmails(f);
    forall i | 0 <= i < |t| && SearchDotCo(t[i].email) ensures exists x :: x in g && x.index == i {
      assert f[i] in f;
    }
    g
  }
}
