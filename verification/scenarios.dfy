/** End-to-end runs on a new database, combining the server with the pages. */
module Scenarios {
  import opened Common
  import opened Records
  import Server
  import TestSession
  import Home

  /** A new database after start-up: the user "Guest" and SampleTest under id 1. */
  lemma SeededStore()
    ensures Server.Seed(Server.Fresh).users == {"Guest"}
    ensures Server.Seed(Server.Fresh).tests == [Row(1, Server.ToStored(Server.SampleTest))]
    ensures Server.Seed(Server.Fresh).history == []
  {
    Server.FreshValid();
  }

  /** Listing the tests of a new database gives SampleTest, parsed back, under id 1. */
  lemma SeededTests()
    ensures Server.GetTests(Server.Seed(Server.Fresh)) == Some([Row(1, Server.SampleTest)])
  {
    SeededStore();
    Server.FreshValid();
    var s := Server.Seed(Server.Fresh);
    Server.StoredRoundTrip(Server.SampleTest);
    assert Server.FromStored(s.tests[0].val) == Some(Server.SampleTest);
    var out := Server.GetTests(s).value;
    assert |out| == 1 && out[0] == Row(1, Server.SampleTest);
    assert out == [Row(1, Server.SampleTest)];
  }

  /** Choosing option 3 and then option 0 answers both sample questions correctly. */
  lemma SampleAnswersScoreTwo()
    ensures TestSession.CorrectCount(Server.SampleTest.questions,
                                     [TestSession.Checked(3), TestSession.Checked(0)], 2) == 2
    ensures TestSession.CorrectCount(Server.SampleTest.questions,
                                     [TestSession.NothingChecked, TestSession.Checked(0)], 2) == 1
  {
    var qs := Server.SampleTest.questions;
    assert TestSession.CorrectSet(qs, [TestSession.Checked(3), TestSession.Checked(0)], 2) == {0, 1};
    assert TestSession.CorrectSet(qs, [TestSession.NothingChecked, TestSession.Checked(0)], 2) == {1};
  }

  /**
   * Guest takes the sample test on a new database, answering 3 then 0: the
   * result is 2/2, the history holds exactly that record under id 1, and the
   * home page shows 2/2 as Guest's last and best on it.
   */
  method TakeSampleTest(now: int) returns (store: Server.Store, rec: HistoryRecord)
    ensures Server.Valid(store)
    ensures rec == HistoryRecord("Guest", 1, "Sample Test", 2, now)
    ensures store.history == [Row(1, rec)]
    ensures Home.Last(store.history, "Guest", Row(1, Server.SampleTest)) == Home.Fraction(2, 2)
    ensures Home.Best(store.history, "Guest", Row(1, Server.SampleTest)) == Home.Fraction(2, 2)
  {
    Server.FreshValid();
    SeededStore();
    var s := Server.Seed(Server.Fresh);
    var sels := [TestSession.Checked(3), TestSession.Checked(0)];
    SampleAnswersScoreTwo();
    var taken := TestSession.TakeTest(Row(1, Server.SampleTest), sels, "Guest", now);
    rec := taken.value[0];
    var reply := Server.PostHistory(s, rec);
    store := reply.store;
    SingleAttempt(rec, Row(1, Server.SampleTest));
  }

  /**
   * The Finish button as written stays live after the walk. Answering 3 and 0
   * and then activating Finish once more with 0 still checked posts 2 and
   * then 3. The second score exceeds the test's two questions.
   */
  lemma RepeatedFinishOverscores()
    ensures |Server.SampleTest.questions| == 2
    ensures TestSession.PostedAsWritten(Server.SampleTest.questions, TestSession.Initial,
              [TestSession.Checked(3), TestSession.Checked(0), TestSession.Checked(0)]) == [2, 3]
  {
  }

  /** With one attempt on record, last and best are both its score. */
  lemma SingleAttempt(rec: HistoryRecord, t: Row<TestRecord>)
    requires rec.user == "Guest" && rec.testId == t.id
    ensures Home.Last([Row(1, rec)], "Guest", t) == Home.Fraction(rec.score, |t.val.questions|)
    ensures Home.Best([Row(1, rec)], "Guest", t) == Home.Fraction(rec.score, |t.val.questions|)
  {
    assert Home.Attempt([Row(1, rec)][0], "Guest", t.id);
  }

  /** Deleting history id 9999 on a new database answers 404. */
  lemma DeleteUnknownHistory()
    ensures Server.DeleteHistory(Server.Seed(Server.Fresh), 9999).response == Server.NotFound
  {
    Server.FreshValid();
  }

  /**
   * Test B requires test A, which has two questions; the user's best on A is
   * 1, so B is locked.
   */
  lemma PrerequisiteNotMet(a: TestRecord, b: TestRecord, history: seq<Row<HistoryRecord>>)
    requires |a.questions| == 2 && b.prereq == Some(7)
    requires history == [Row(1, HistoryRecord("Guest", 7, a.title, 1, 0)),
                         Row(2, HistoryRecord("Guest", 7, a.title, 0, 5))]
    ensures Home.Locked([Row(7, a), Row(8, b)], history, "Guest", b) == Success(true)
  {
    assert Home.Attempt(history[0], "Guest", 7);
  }
}
