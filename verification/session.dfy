/**
 * The test page's walk over a test's questions: the state `(idx, score)`,
 * the Next/Finish handler and the record submitted at the end. The DOM, the
 * radio inputs and the clock are replaced by the selection made on each
 * question and the completion time, passed in.
 */
module TestSession {
  import opened Common
  import opened Records

  /** What the Next handler reads: the index of the checked option, or nothing (`NaN`). */
  datatype Selection = NothingChecked | Checked(index: int)

  datatype Session = Session(idx: nat, score: nat)

  /** After Next: show the next question, or finish. */
  datatype Step = Continue(session: Session) | Finish(session: Session)

  datatype SessionError = EmptyTest

  /** `sel === q.answer`; NaN equals nothing, so an unanswered question is never correct. */
  predicate Correct(q: Question, sel: Selection)
  {
    sel.Checked? && sel.index == q.answer
  }

  /** The state a page load starts in. */
  const Initial: Session := Session(0, 0)

  /**
   * The question the live Next/Finish handler checks. `showQ` binds a new
   * handler to each question it shows. `finish` neither removes the last
   * handler nor clears the page. So once the walk is over, the button still
   * reads the last question's radios and compares with its answer.
   */
  function Shown(qs: seq<Question>, s: Session): Question
    requires |qs| > 0
  {
    if s.idx < |qs| then qs[s.idx] else qs[|qs| - 1]
  }

  /**
   * One activation of the Next/Finish button, as written. The index goes up
   * by exactly one. The score goes up by one exactly when the selection
   * answers the question the handler checks. The handler calls `finish`
   * exactly when the new index is not below the number of questions, and that
   * includes every activation after the walk is over. A test without
   * questions never shows the button, because the first `showQ` throws.
   */
  function Next(qs: seq<Question>, s: Session, sel: Selection): (r: Step)
    requires |qs| > 0
    ensures r.session.idx == s.idx + 1
    ensures r.session.score == s.score || r.session.score == s.score + 1
    ensures r.session.score == s.score + 1 <==> Correct(Shown(qs, s), sel)
    ensures r.Finish? <==> r.session.idx >= |qs|
    ensures s.score <= s.idx ==> r.session.score <= r.session.idx
  {
    var score := if sel == Checked(Shown(qs, s).answer) then s.score + 1 else s.score;
    var s' := Session(s.idx + 1, score);
    if s'.idx < |qs| then Continue(s') else Finish(s')
  }

  /**
   * The scores `finish` posts when the handler as written runs once per
   * selection in `sels`, starting from `s`. Every activation after the last
   * question posts again.
   */
  function PostedAsWritten(qs: seq<Question>, s: Session, sels: seq<Selection>): seq<nat>
    requires |qs| > 0
    decreases |sels|
  {
    if |sels| == 0 then []
    else
      var step := Next(qs, s, sels[0]);
      (if step.Finish? then [step.session.score] else []) + PostedAsWritten(qs, step.session, sels[1..])
  }

  /** `PostedAsWritten` of one more activation in front. */
  lemma PostedCons(qs: seq<Question>, s: Session, sel: Selection, rest: seq<Selection>)
    requires |qs| > 0
    ensures var step := Next(qs, s, sel);
            PostedAsWritten(qs, s, [sel] + rest)
            == (if step.Finish? then [step.session.score] else []) + PostedAsWritten(qs, step.session, rest)
  {
    assert ([sel] + rest)[0] == sel && ([sel] + rest)[1..] == rest;
  }

  /**
   * After the walk, every activation as written posts again. The score it
   * posts goes up by one exactly when the selection answers the last question.
   */
  lemma ActivationAfterWalk(qs: seq<Question>, s: Session, sel: Selection, rest: seq<Selection>)
    requires |qs| > 0 && s.idx >= |qs|
    ensures var score := if Correct(qs[|qs| - 1], sel) then s.score + 1 else s.score;
            PostedAsWritten(qs, s, [sel] + rest)
            == [score] + PostedAsWritten(qs, Session(s.idx + 1, score), rest)
  {
    var score := if Correct(qs[|qs| - 1], sel) then s.score + 1 else s.score;
    var step := Next(qs, s, sel);
    assert Shown(qs, s) == qs[|qs| - 1];
    assert step.Finish? && step.session == Session(s.idx + 1, score);
    PostedCons(qs, s, sel, rest);
  }

  /** After the walk, each activation posts exactly one score. */
  lemma {:induction false} PostsAfterWalk(qs: seq<Question>, s: Session, sels: seq<Selection>)
    requires |qs| > 0 && s.idx >= |qs|
    ensures |PostedAsWritten(qs, s, sels)| == |sels|
    decreases |sels|
  {
    if |sels| > 0 {
      PostsAfterWalk(qs, Next(qs, s, sels[0]).session, sels[1..]);
    }
  }

  /** The walk as written from question `k` on, with the score of the first `k`. */
  lemma {:induction false} PostedFrom(qs: seq<Question>, sels: seq<Selection>, k: nat)
    requires k < |qs| <= |sels|
    ensures var p := PostedAsWritten(qs, Session(k, CorrectCount(qs, sels, k)), sels[k..]);
            |p| == |sels| - |qs| + 1 && p[0] == CorrectCount(qs, sels, |qs|)
    decreases |qs| - k
  {
    var s := Session(k, CorrectCount(qs, sels, k));
    CountStep(qs, sels, k);
    var s' := Session(k + 1, CorrectCount(qs, sels, k + 1));
    assert Next(qs, s, sels[k]).session == s';
    assert sels[k..][0] == sels[k] && sels[k..][1..] == sels[k + 1..];
    if k + 1 == |qs| {
      PostsAfterWalk(qs, s', sels[k + 1..]);
    } else {
      PostedFrom(qs, sels, k + 1);
    }
  }

  /**
   * The walk as written over at least as many activations as questions. The
   * first score posted is the number of correct answers, the one the
   * corrected `TakeTest` posts. Each activation after the last question posts
   * one more.
   */
  lemma PostedAsWrittenWalk(qs: seq<Question>, sels: seq<Selection>)
    requires 0 < |qs| <= |sels|
    ensures |PostedAsWritten(qs, Initial, sels)| == |sels| - |qs| + 1
    ensures PostedAsWritten(qs, Initial, sels)[0] == CorrectCount(qs, sels, |qs|)
  {
    assert CorrectSet(qs, sels, 0) == {};
    assert sels[0..] == sels;
    PostedFrom(qs, sels, 0);
  }

  /** The button's caption while question `idx` is shown. */
  function ButtonLabel(qs: seq<Question>, s: Session): string
  {
    if s.idx < |qs| - 1 then "Next" else "Finish"
  }

  /** The caption reads "Finish" exactly on the click that ends the walk. */
  lemma LabelMatchesStep(qs: seq<Question>, s: Session, sel: Selection)
    requires s.idx < |qs|
    ensures ButtonLabel(qs, s) == "Finish" <==> Next(qs, s, sel).Finish?
    ensures ButtonLabel(qs, s) == "Next" <==> Next(qs, s, sel).Continue?
  {
  }

  /** The questions among the first `k` whose selection is correct. */
  function CorrectSet(qs: seq<Question>, sels: seq<Selection>, k: nat): set<nat>
    requires k <= |qs| && k <= |sels|
  {
    set i: nat | i < k && Correct(qs[i], sels[i])
  }

  /** The reference score: how many of the first `k` questions were answered correctly. */
  function CorrectCount(qs: seq<Question>, sels: seq<Selection>, k: nat): nat
    requires k <= |qs| && k <= |sels|
  {
    |CorrectSet(qs, sels, k)|
  }

  /** Counting one more question adds one exactly when it was answered correctly. */
  lemma CountStep(qs: seq<Question>, sels: seq<Selection>, k: nat)
    requires k < |qs| && k < |sels|
    ensures CorrectCount(qs, sels, k + 1)
            == CorrectCount(qs, sels, k) + if Correct(qs[k], sels[k]) then 1 else 0
  {
    var a := CorrectSet(qs, sels, k);
    var b := CorrectSet(qs, sels, k + 1);
    if Correct(qs[k], sels[k]) {
      forall i: nat ensures i in b <==> i in a + {k} {
      }
      assert b == a + {k};
      assert k !in a;
    } else {
      forall i: nat ensures i in b <==> i in a {
      }
      assert b == a;
    }
  }

  /**
   * Taking a test with one activation of the Next/Finish button per entry of
   * `sels`. The result is the list of records `finish` posts. A test without
   * questions never gets that far: the first `showQ` reads a missing
   * question. Activations after the walk is over are ignored here. This is
   * the corrected behaviour; `PostedAsWritten` keeps the handler as written.
   * Fewer activations than questions post nothing. Otherwise exactly one
   * record is posted. It carries the current user, the test's id and title,
   * the completion time and the number of correctly answered questions, which
   * never exceeds the number of questions.
   */
  method TakeTest(test: Row<TestRecord>, sels: seq<Selection>, user: string, now: int)
    returns (r: Result<seq<HistoryRecord>, SessionError>)
    ensures r.Failure? <==> |test.val.questions| == 0
    ensures r.Success? ==> |r.value| == if |sels| >= |test.val.questions| then 1 else 0
    ensures r.Success? && |sels| >= |test.val.questions| ==>
              && r.value[0].user == user
              && r.value[0].testId == test.id
              && r.value[0].testTitle == test.val.title
              && r.value[0].date == now
              && r.value[0].score == CorrectCount(test.val.questions, sels, |test.val.questions|)
              && 0 <= r.value[0].score <= |test.val.questions|
  {
    var qs := test.val.questions;
    if |qs| == 0 {
      return Failure(EmptyTest);
    }
    var s := Initial;
    var posts: seq<HistoryRecord> := [];
    var i := 0;
    assert CorrectSet(qs, sels, 0) == {};
    while i < |sels|
      invariant i <= |sels|
      invariant s.idx == if i < |qs| then i else |qs|
      invariant s.score <= s.idx
      invariant s.score == CorrectCount(qs, sels, s.idx)
      invariant |posts| == if i >= |qs| then 1 else 0
      invariant i >= |qs| ==> posts[0] == HistoryRecord(user, test.id, test.val.title, s.score, now)
    {
      if s.idx < |qs| {
        CountStep(qs, sels, s.idx);
        var step := Next(qs, s, sels[i]);
        s := step.session;
        if step.Finish? {
          posts := posts + [HistoryRecord(user, test.id, test.val.title, s.score, now)];
        }
      }
      i := i + 1;
    }
    r := Success(posts);
  }
}
