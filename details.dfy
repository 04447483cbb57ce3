/** The `DetailedResults` page: looking an exam up by the id in the route and
    the counts and thresholds it shows for it. */
module Details {
  import opened Wrappers
  import opened Records

  /** Entry `i` is the first exam in the history with id `x`. */
  predicate IsFirstMatch(history: seq<ExamResult>, i: int, x: int) {
    && 0 <= i < |history| && history[i].id == x
    && forall j :: 0 <= j < i ==> history[j].id != x
  }

  /** The first exam whose id equals the parsed route id. The parsed route id
      is `None` when `parseInt` gives `NaN`, which equals no id. */
  function FindExam(history: seq<ExamResult>, parsedId: Option<int>): (r: Option<ExamResult>)
    ensures r.None? <==> parsedId.None? || forall i :: 0 <= i < |history| ==> history[i].id != parsedId.value
    ensures r.Some? ==> parsedId.Some? && (exists i :: IsFirstMatch(history, i, parsedId.value) && history[i] == r.value)
  {
    match parsedId
    case None => None
    case Some(x) =>
      if history == [] then None
      else if history[0].id == x then Some(history[0])
      else
        var r := FindExam(history[1..], parsedId);
        assert forall i :: 1 <= i < |history| ==> history[i] == history[1..][i - 1];
        assert r.Some? ==> exists i :: IsFirstMatch(history[1..], i, x) && history[i + 1] == r.value;
        r
  }

  /** The "Incorrect Answers" card. */
  function IncorrectAnswers(r: ExamResult): int
  {
    r.total - r.score
  }

  /** For a well-formed result the card shows the number of questions answered wrongly. */
  lemma IncorrectAnswersCounts(r: ExamResult)
    requires WellFormed(r)
    ensures IncorrectAnswers(r) == IncorrectCount(r.answeredQuestions)
    ensures 0 <= IncorrectAnswers(r) <= r.total
  {
  }

  /** The "Questions Marked for Review" card. */
  function MarkedCount(qs: seq<AnsweredQuestion>): (n: nat)
    ensures n == |set i | 0 <= i < |qs| && qs[i].markedForReview|
    ensures n <= |qs|
    ensures n == 0 <==> forall i :: 0 <= i < |qs| ==> !qs[i].markedForReview
    ensures n == |qs| <==> forall i :: 0 <= i < |qs| ==> qs[i].markedForReview
  {
    if qs == [] then 0
    else
      var pre := qs[..|qs| - 1];
      assert forall i :: 0 <= i < |pre| ==> qs[i] == pre[i];
      var p := (q: AnsweredQuestion) => q.markedForReview;
      PositionsSnoc(qs, p);
      assert Positions(qs, p) == set i | 0 <= i < |qs| && qs[i].markedForReview;
      assert Positions(pre, p) == set i | 0 <= i < |pre| && pre[i].markedForReview;
      MarkedCount(pre) + if qs[|qs| - 1].markedForReview then 1 else 0
  }

  /** The progress ring is drawn in the pass colour at 70 per cent or more. */
  predicate IsPassing(percentage: real) {
    percentage >= 70.0
  }

  /** For a well-formed, non-empty result, passing means at least seven correct answers in ten. */
  lemma PassingMeansSevenInTen(r: ExamResult)
    requires WellFormed(r) && r.total > 0
    ensures IsPassing(r.percentage) <==> 10 * r.score >= 7 * r.total
  {
    RatioThreshold(r.score, r.total);
  }

  lemma RatioThreshold(s: int, t: int)
    requires t > 0
    ensures (s as real / t as real) * 100.0 >= 70.0 <==> 10 * s >= 7 * t
  {
    var f := s as real / t as real;
    assert f * (t as real) == s as real;
    assert f >= 0.7 <==> f * (t as real) >= 0.7 * (t as real);
  }

  /** A well-formed result with no questions never passes. */
  lemma EmptyExamFails(r: ExamResult)
    requires WellFormed(r) && r.total == 0
    ensures !IsPassing(r.percentage)
  {
  }

  /** The "Correct answer" line is shown under a question answered wrongly. */
  predicate ShowsCorrectAnswer(q: AnsweredQuestion) {
    !q.isCorrect
  }

  /** In a well-formed result the line appears exactly when the user's answer differs from the right one. */
  lemma ShowsCorrectAnswerIffWrong(r: ExamResult, i: int)
    requires WellFormed(r) && 0 <= i < |r.answeredQuestions|
    ensures ShowsCorrectAnswer(r.answeredQuestions[i]) <==>
      r.answeredQuestions[i].userAnswer != r.answeredQuestions[i].correctAnswer
  {
  }
}
