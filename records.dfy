/** The records that the exam history is made of, shared by the store and by
    every screen that reads the history. */
module Records {

  /** A question as it was answered in one exam. */
  datatype AnsweredQuestion = AnsweredQuestion(
    id: int,
    question: string,
    userAnswer: string,
    correctAnswer: string,
    explanation: string,
    isCorrect: bool,
    markedForReview: bool)

  /** One completed exam. `date` is opaque text (an ISO time stamp in the app). */
  datatype ExamResult = ExamResult(
    id: int,
    date: string,
    score: int,
    total: int,
    percentage: real,
    topic: string,
    level: string,
    answeredQuestions: seq<AnsweredQuestion>)

  /** A milestone whose `unlocked` flag the store flips. */
  datatype Achievement = Achievement(id: int, title: string, description: string, unlocked: bool)

  /** The positions of `s` whose element satisfies `p`. */
  ghost function Positions<T>(s: seq<T>, p: T -> bool): set<int>
  {
    set i | 0 <= i < |s| && p(s[i])
  }

  /** One more element adds its position exactly when it satisfies `p`. */
  lemma PositionsSnoc<T>(s: seq<T>, p: T -> bool)
    requires s != []
    ensures |Positions(s, p)| == |Positions(s[..|s| - 1], p)| + if p(s[|s| - 1]) then 1 else 0
  {
    var pre := s[..|s| - 1];
    assert forall i :: 0 <= i < |pre| ==> pre[i] == s[i];
    if p(s[|s| - 1]) {
      assert Positions(s, p) == Positions(pre, p) + {|s| - 1};
    } else {
      assert Positions(s, p) == Positions(pre, p);
    }
  }

  /** The number of answered questions marked correct. */
  function CorrectCount(qs: seq<AnsweredQuestion>): (n: nat)
    ensures n == |set i | 0 <= i < |qs| && qs[i].isCorrect|
    ensures n <= |qs|
    ensures n == |qs| <==> forall i :: 0 <= i < |qs| ==> qs[i].isCorrect
    ensures n == 0 <==> forall i :: 0 <= i < |qs| ==> !qs[i].isCorrect
  {
    if qs == [] then 0
    else
      var pre := qs[..|qs| - 1];
      var p := (q: AnsweredQuestion) => q.isCorrect;
      PositionsSnoc(qs, p);
      assert Positions(qs, p) == set i | 0 <= i < |qs| && qs[i].isCorrect;
      assert Positions(pre, p) == set i | 0 <= i < |pre| && pre[i].isCorrect;
      CorrectCount(qs[..|qs| - 1]) + (if qs[|qs| - 1].isCorrect then 1 else 0)
  }

  /** The number of answered questions marked wrong. */
  function IncorrectCount(qs: seq<AnsweredQuestion>): (n: nat)
    ensures n + CorrectCount(qs) == |qs|
  {
    if qs == [] then 0
    else IncorrectCount(qs[..|qs| - 1]) + (if qs[|qs| - 1].isCorrect then 0 else 1)
  }

  /** The record invariants the app's results are meant to keep: the total is
      the number of answered questions, the score the number marked correct,
      the percentage `score / total * 100` (0 for an empty exam), and each
      question is marked correct exactly when its answer is the right one. */
  ghost predicate WellFormed(r: ExamResult) {
    && r.total == |r.answeredQuestions|
    && r.score == CorrectCount(r.answeredQuestions)
    && (r.total == 0 ==> r.percentage == 0.0)
    && (r.total > 0 ==> r.percentage == (r.score as real / r.total as real) * 100.0)
    && forall i :: 0 <= i < |r.answeredQuestions| ==>
         (r.answeredQuestions[i].isCorrect <==>
          r.answeredQuestions[i].userAnswer == r.answeredQuestions[i].correctAnswer)
  }
}
