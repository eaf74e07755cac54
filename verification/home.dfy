/**
 * The home page's per-test summary: the current user's last and best score
 * on each test and whether the test is locked behind its prerequisite.
 */
module Home {
  import opened Common
  import opened Records
  import Table

  /** A history row is an attempt by `user` on test `testId`. */
  predicate Attempt(h: Row<HistoryRecord>, user: string, testId: int)
  {
    h.val.user == user && h.val.testId == testId
  }

  predicate HasAttempt(history: seq<Row<HistoryRecord>>, user: string, testId: int)
  {
    exists i :: 0 <= i < |history| && Attempt(history[i], user, testId)
  }

  /**
   * `history.filter(h => h.user === user && h.testId === testId)`: exactly the
   * user's attempts on the test. `UserHistLast` fixes which one comes last.
   */
  function UserHist(history: seq<Row<HistoryRecord>>, user: string, testId: int)
    : (r: seq<Row<HistoryRecord>>)
    ensures forall j :: 0 <= j < |r| ==> r[j] in history && Attempt(r[j], user, testId)
    ensures forall i :: 0 <= i < |history| && Attempt(history[i], user, testId) ==> history[i] in r
  {
    if |history| == 0 then []
    else
      var init := history[..|history| - 1];
      var x := history[|history| - 1];
      assert forall i :: 0 <= i < |history| - 1 ==> history[i] == init[i];
      UserHist(init, user, testId) + if Attempt(x, user, testId) then [x] else []
  }

  /** The position of the user's last attempt on `testId`, or -1 without one. */
  function LastAttempt(history: seq<Row<HistoryRecord>>, user: string, testId: int): (i: int)
    ensures -1 <= i < |history|
    ensures i >= 0 ==> Attempt(history[i], user, testId)
    ensures forall j :: i < j < |history| ==> !Attempt(history[j], user, testId)
  {
    if |history| == 0 then -1
    else if Attempt(history[|history| - 1], user, testId) then |history| - 1
    else LastAttempt(history[..|history| - 1], user, testId)
  }

  /** The filtered list is empty exactly without attempts, and otherwise ends with the last attempt. */
  lemma {:induction false} UserHistLast(history: seq<Row<HistoryRecord>>, user: string, testId: int)
    ensures var hs := UserHist(history, user, testId);
            && (|hs| == 0 <==> LastAttempt(history, user, testId) == -1)
            && (|hs| > 0 ==> hs[|hs| - 1] == history[LastAttempt(history, user, testId)])
  {
    if |history| > 0 && !Attempt(history[|history| - 1], user, testId) {
      UserHistLast(history[..|history| - 1], user, testId);
    }
  }

  /** There is an attempt exactly when LastAttempt finds one. */
  lemma HasAttemptLast(history: seq<Row<HistoryRecord>>, user: string, testId: int)
    ensures HasAttempt(history, user, testId) <==> LastAttempt(history, user, testId) >= 0
  {
  }

  function Scores(hs: seq<Row<HistoryRecord>>): (r: seq<int>)
    ensures |r| == |hs| && forall i :: 0 <= i < |hs| ==> r[i] == hs[i].val.score
  {
    seq(|hs|, i requires 0 <= i < |hs| => hs[i].val.score)
  }

  /** `Math.max(...xs)` on a non-empty list. */
  function Max(xs: seq<int>): (m: int)
    requires |xs| > 0
    ensures m in xs
    ensures forall i :: 0 <= i < |xs| ==> xs[i] <= m
  {
    if |xs| == 1 then xs[0]
    else
      var m := Max(xs[1..]);
      assert forall i :: 1 <= i < |xs| ==> xs[i] == xs[1..][i - 1];
      if xs[0] > m then xs[0] else m
  }

  /** How a score is shown: `score/total`, or a dash when there is no attempt. */
  datatype Summary = Dash | Fraction(score: int, total: nat)

  /**
   * "Last": the score of the user's last attempt on `t` in history order,
   * out of `t`'s question count; a dash with no attempt.
   */
  function Last(history: seq<Row<HistoryRecord>>, user: string, t: Row<TestRecord>): (r: Summary)
    ensures r == Dash <==> !HasAttempt(history, user, t.id)
    ensures r.Fraction? ==>
              && r.total == |t.val.questions|
              && exists i :: 0 <= i < |history| && Attempt(history[i], user, t.id)
                             && history[i].val.score == r.score
                             && forall j :: i < j < |history| ==> !Attempt(history[j], user, t.id)
  {
    var hs := UserHist(history, user, t.id);
    UserHistLast(history, user, t.id);
    HasAttemptLast(history, user, t.id);
    if |hs| == 0 then Dash
    else
      var i := LastAttempt(history, user, t.id);
      assert history[i] == hs[|hs| - 1];
      Fraction(hs[|hs| - 1].val.score, |t.val.questions|)
  }

  /** The user's highest score on test `testId`; requires an attempt. */
  function BestScore(history: seq<Row<HistoryRecord>>, user: string, testId: int): (m: int)
    requires HasAttempt(history, user, testId)
    ensures exists i :: 0 <= i < |history| && Attempt(history[i], user, testId) && history[i].val.score == m
    ensures forall i :: 0 <= i < |history| && Attempt(history[i], user, testId) ==> history[i].val.score <= m
  {
    var hs := UserHist(history, user, testId);
    assert |hs| > 0 by {
      var i :| 0 <= i < |history| && Attempt(history[i], user, testId);
      assert history[i] in hs;
    }
    var m := Max(Scores(hs));
    var j :| 0 <= j < |hs| && Scores(hs)[j] == m;
    assert hs[j] in history;
    forall i | 0 <= i < |history| && Attempt(history[i], user, testId)
      ensures history[i].val.score <= m
    {
      var k :| 0 <= k < |hs| && hs[k] == history[i];
      assert Scores(hs)[k] <= m;
    }
    m
  }

  /** "Best": the user's highest score on `t` out of its question count; a dash with no attempt. */
  function Best(history: seq<Row<HistoryRecord>>, user: string, t: Row<TestRecord>): (r: Summary)
    ensures r == Dash <==> !HasAttempt(history, user, t.id)
    ensures r.Fraction? ==>
              && r.total == |t.val.questions|
              && (exists i :: 0 <= i < |history| && Attempt(history[i], user, t.id)
                              && history[i].val.score == r.score)
              && forall i :: 0 <= i < |history| && Attempt(history[i], user, t.id) ==>
                               history[i].val.score <= r.score
  {
    if HasAttempt(history, user, t.id) then
      Fraction(BestScore(history, user, t.id), |t.val.questions|)
    else Dash
  }

  /** `if (t.prereq)`: a prerequisite is set when it is present and not 0. */
  predicate PrereqSet(t: TestRecord)
  {
    t.prereq.Some? && t.prereq.value != 0
  }

  /** `preTest.questions.length` throws when no listed test has the prerequisite's id. */
  datatype HomeError = MissingPrereq

  /**
   * Whether `t` is locked for `user`. It is locked exactly when a
   * prerequisite is set and the user's best on it (0 without attempts) is
   * below the prerequisite's question count: every attempt scored below that
   * count, and the count is positive or there was an attempt. A perfect score
   * therefore unlocks; no attempt locks unless the prerequisite has no
   * questions; a prerequisite with no questions never locks on non-negative
   * scores.
   */
  function Locked(tests: seq<Row<TestRecord>>, history: seq<Row<HistoryRecord>>,
                  user: string, t: TestRecord): (r: Result<bool, HomeError>)
    ensures r.Failure? <==> PrereqSet(t) && !Table.HasId(tests, t.prereq.value)
    ensures !PrereqSet(t) ==> r == Success(false)
    ensures r.Success? && PrereqSet(t) ==>
              var n := |Table.Lookup(tests, t.prereq.value).value.questions|;
              && (r.value <==>
                    && (forall i :: 0 <= i < |history| && Attempt(history[i], user, t.prereq.value) ==>
                                      history[i].val.score < n)
                    && (n > 0 || HasAttempt(history, user, t.prereq.value)))
              && (!HasAttempt(history, user, t.prereq.value) ==> (r.value <==> n > 0))
              && ((exists i :: 0 <= i < |history| && Attempt(history[i], user, t.prereq.value)
                                && history[i].val.score >= n) ==> !r.value)
  {
    if !PrereqSet(t) then Success(false)
    else
      var p := t.prereq.value;
      var preBest := if HasAttempt(history, user, p) then BestScore(history, user, p) else 0;
      match Table.Lookup(tests, p)
      case None => Failure(MissingPrereq)
      case Some(preTest) => Success(preBest < |preTest.questions|)
  }

  /** With non-negative scores, a prerequisite without questions never locks. */
  lemma EmptyPrereqNeverLocks(tests: seq<Row<TestRecord>>, history: seq<Row<HistoryRecord>>,
                              user: string, t: TestRecord)
    requires PrereqSet(t) && Table.HasId(tests, t.prereq.value)
    requires |Table.Lookup(tests, t.prereq.value).value.questions| == 0
    requires forall i :: 0 <= i < |history| ==> history[i].val.score >= 0
    ensures Locked(tests, history, user, t) == Success(false)
  {
    if HasAttempt(history, user, t.prereq.value) {
      var i :| 0 <= i < |history| && Attempt(history[i], user, t.prereq.value);
      assert history[i].val.score >= 0;
    }
  }
}
