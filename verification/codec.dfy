/**
 * The text stored in the `questions` column. The server writes
 * `JSON.stringify(t.questions)` and reads it back with `JSON.parse`; the model
 * replaces JSON text by a flat token sequence with the same information, and
 * proves that reading back what was written gives the same questions.
 */
module Codec {
  import opened Common
  import opened Records

  datatype Token = Text(s: string) | Int(n: int)

  function EncodeOptions(os: seq<string>): (r: seq<Token>)
    ensures |r| == |os|
  {
    if |os| == 0 then [] else [Text(os[0])] + EncodeOptions(os[1..])
  }

  function EncodeQuestion(q: Question): seq<Token>
  {
    [Text(q.text), Int(q.answer), Int(|q.options|)] + EncodeOptions(q.options)
  }

  function EncodeQuestions(qs: seq<Question>): seq<Token>
  {
    if |qs| == 0 then [] else EncodeQuestion(qs[0]) + EncodeQuestions(qs[1..])
  }

  /** The stored text of a question list (`JSON.stringify`). */
  function Encode(qs: seq<Question>): seq<Token>
  {
    [Int(|qs|)] + EncodeQuestions(qs)
  }

  /** Reads `n` options and returns them with the tokens that follow. */
  function DecodeOptions(ts: seq<Token>, n: nat): Option<(seq<string>, seq<Token>)>
  {
    if n == 0 then Some(([], ts))
    else if |ts| == 0 || !ts[0].Text? then None
    else match DecodeOptions(ts[1..], n - 1)
      case None => None
      case Some((os, rest)) => Some(([ts[0].s] + os, rest))
  }

  function DecodeQuestion(ts: seq<Token>): Option<(Question, seq<Token>)>
  {
    if |ts| < 3 || !ts[0].Text? || !ts[1].Int? || !ts[2].Int? || ts[2].n < 0 then None
    else match DecodeOptions(ts[3..], ts[2].n)
      case None => None
      case Some((os, rest)) => Some((Question(ts[0].s, os, ts[1].n), rest))
  }

  function DecodeQuestions(ts: seq<Token>, n: nat): Option<(seq<Question>, seq<Token>)>
    decreases n
  {
    if n == 0 then Some(([], ts))
    else match DecodeQuestion(ts)
      case None => None
      case Some((q, rest)) =>
        match DecodeQuestions(rest, n - 1)
        case None => None
        case Some((qs, rest')) => Some(([q] + qs, rest'))
  }

  /** Parses stored text back into questions (`JSON.parse`); None where JSON.parse would throw. */
  function Decode(blob: seq<Token>): Option<seq<Question>>
  {
    if |blob| == 0 || !blob[0].Int? || blob[0].n < 0 then None
    else match DecodeQuestions(blob[1..], blob[0].n)
      case Some((qs, rest)) => if |rest| == 0 then Some(qs) else None
      case None => None
  }

  lemma {:induction false} DecodeOptionsRoundTrip(os: seq<string>, rest: seq<Token>)
    ensures DecodeOptions(EncodeOptions(os) + rest, |os|) == Some((os, rest))
  {
    if |os| > 0 {
      var ts := EncodeOptions(os) + rest;
      assert ts[1..] == EncodeOptions(os[1..]) + rest;
      DecodeOptionsRoundTrip(os[1..], rest);
      assert [os[0]] + os[1..] == os;
    } else {
      assert EncodeOptions(os) + rest == rest;
    }
  }

  lemma DecodeQuestionRoundTrip(q: Question, rest: seq<Token>)
    ensures DecodeQuestion(EncodeQuestion(q) + rest) == Some((q, rest))
  {
    var ts := EncodeQuestion(q) + rest;
    assert ts[3..] == EncodeOptions(q.options) + rest;
    DecodeOptionsRoundTrip(q.options, rest);
  }

  lemma {:induction false} DecodeQuestionsRoundTrip(qs: seq<Question>, rest: seq<Token>)
    ensures DecodeQuestions(EncodeQuestions(qs) + rest, |qs|) == Some((qs, rest))
  {
    if |qs| > 0 {
      var tail := EncodeQuestions(qs[1..]) + rest;
      assert EncodeQuestions(qs) + rest == EncodeQuestion(qs[0]) + tail;
      DecodeQuestionRoundTrip(qs[0], tail);
      DecodeQuestionsRoundTrip(qs[1..], rest);
      assert [qs[0]] + qs[1..] == qs;
    } else {
      assert EncodeQuestions(qs) + rest == rest;
    }
  }

  /** Whatever question list is written is read back unchanged: same order, options and answers. */
  lemma RoundTrip(qs: seq<Question>)
    ensures Decode(Encode(qs)) == Some(qs)
  {
    assert Encode(qs)[1..] == EncodeQuestions(qs) + [];
    DecodeQuestionsRoundTrip(qs, []);
  }

  /** Different question lists are stored as different text. */
  lemma EncodeInjective(qs: seq<Question>, qs': seq<Question>)
    ensures Encode(qs) == Encode(qs') ==> qs == qs'
  {
    RoundTrip(qs);
    RoundTrip(qs');
  }
}
