/** The summary figures of the `Profile` page, computed from the history and
    the achievements. */
module ProfileStats {
  import opened Records

  datatype Stats = Stats(totalExams: nat, totalQuestions: int, overallAccuracy: real, unlockedAchievements: nat)

  /** The sum of the exams' `total` fields. */
  function SumTotal(history: seq<ExamResult>): int
  {
    if history == [] then 0
    else SumTotal(history[..|history| - 1]) + history[|history| - 1].total
  }

  /** The sum of the exams' `score` fields. */
  function SumScore(history: seq<ExamResult>): int
  {
    if history == [] then 0
    else SumScore(history[..|history| - 1]) + history[|history| - 1].score
  }

  /** The number of unlocked achievements. */
  function UnlockedCount(achs: seq<Achievement>): (n: nat)
    ensures n == |set i | 0 <= i < |achs| && achs[i].unlocked|
    ensures n <= |achs|
    ensures n == |achs| <==> forall i :: 0 <= i < |achs| ==> achs[i].unlocked
    ensures n == 0 <==> forall i :: 0 <= i < |achs| ==> !achs[i].unlocked
  {
    if achs == [] then 0
    else
      var pre := achs[..|achs| - 1];
      assert forall i :: 0 <= i < |pre| ==> achs[i] == pre[i];
      var p := (a: Achievement) => a.unlocked;
      PositionsSnoc(achs, p);
      assert Positions(achs, p) == set i | 0 <= i < |achs| && achs[i].unlocked;
      assert Positions(pre, p) == set i | 0 <= i < |pre| && pre[i].unlocked;
      UnlockedCount(pre) + if achs[|achs| - 1].unlocked then 1 else 0
  }

  /** Correct answers as a percentage of all questions, 0 when there are none. */
  function Accuracy(correct: int, total: int): real
  {
    if total > 0 then (correct as real / total as real) * 100.0 else 0.0
  }

  /** The `stats` memo: all zeros for an empty history, otherwise the counts. */
  function ComputeStats(history: seq<ExamResult>, achs: seq<Achievement>): Stats
  {
    if |history| == 0 then Stats(0, 0, 0.0, 0)
    else
      var totalQuestions := SumTotal(history);
      Stats(|history|, totalQuestions, Accuracy(SumScore(history), totalQuestions), UnlockedCount(achs))
  }

  /** An empty history gives four zeros, whatever the achievements say. */
  lemma EmptyHistoryStats(achs: seq<Achievement>)
    ensures ComputeStats([], achs) == Stats(0, 0, 0.0, 0)
  {
  }

  /** A non-empty history counts its exams, their questions, the accuracy over
      them and the unlocked achievements. */
  lemma StatsOfHistory(history: seq<ExamResult>, achs: seq<Achievement>)
    requires history != []
    ensures var s := ComputeStats(history, achs);
      && s.totalExams == |history|
      && s.totalQuestions == SumTotal(history)
      && (SumTotal(history) <= 0 ==> s.overallAccuracy == 0.0)
      && (SumTotal(history) > 0 ==> s.overallAccuracy * (SumTotal(history) as real) == 100.0 * (SumScore(history) as real))
      && s.unlockedAchievements == |set i | 0 <= i < |achs| && achs[i].unlocked|
      && s.unlockedAchievements <= |achs|
  {
  }

  /** Both sums split over a concatenation of histories. */
  lemma {:induction false} SumsAppend(a: seq<ExamResult>, b: seq<ExamResult>)
    ensures SumTotal(a + b) == SumTotal(a) + SumTotal(b)
    ensures SumScore(a + b) == SumScore(a) + SumScore(b)
  {
    if b != [] {
      var b' := b[..|b| - 1];
      assert (a + b)[..|a + b| - 1] == a + b';
      SumsAppend(a, b');
    } else {
      assert a + b == a;
    }
  }

  /** One more exam adds its total and score to the sums. */
  lemma SumsAfterAdd(history: seq<ExamResult>, r: ExamResult)
    ensures SumTotal(history + [r]) == SumTotal(history) + r.total
    ensures SumScore(history + [r]) == SumScore(history) + r.score
  {
    SumsAppend(history, [r]);
    assert [r][..0] == [];
  }

  /** Every exam scores between 0 and its total. */
  ghost predicate ScoresInRange(history: seq<ExamResult>) {
    forall i :: 0 <= i < |history| ==> 0 <= history[i].score <= history[i].total
  }

  /** With every score in range, the summed score is in range of the summed total. */
  lemma {:induction false} SumScoreBounded(history: seq<ExamResult>)
    requires ScoresInRange(history)
    ensures 0 <= SumScore(history) <= SumTotal(history)
  {
    if history != [] {
      var pre := history[..|history| - 1];
      assert forall i :: 0 <= i < |pre| ==> pre[i] == history[i];
      SumScoreBounded(pre);
    }
  }

  /** An accuracy over counts in range lies between 0 and 100. */
  lemma AccuracyInRange(correct: int, total: int)
    requires 0 <= correct <= total
    ensures 0.0 <= Accuracy(correct, total) <= 100.0
    ensures total > 0 ==> (Accuracy(correct, total) == 100.0 <==> correct == total)
  {
    if total > 0 {
      var f := correct as real / total as real;
      assert f * (total as real) == correct as real;
      assert 0.0 <= f <= 1.0;
    }
  }

  /** The overall accuracy of a history whose scores are in range lies between 0 and 100. */
  lemma OverallAccuracyInRange(history: seq<ExamResult>, achs: seq<Achievement>)
    requires ScoresInRange(history)
    ensures 0.0 <= ComputeStats(history, achs).overallAccuracy <= 100.0
  {
    SumScoreBounded(history);
    AccuracyInRange(SumScore(history), SumTotal(history));
  }
}
