/** The exam session of `ExamInterface`: choosing questions from the pool by
    level and topic, answering, moving on, the countdown and the score. */
module Exam {
  import opened Wrappers

  /** A question of the static question pool. */
  datatype Question = Question(
    id: int,
    level: string,
    topic: string,
    question: string,
    options: seq<string>,
    correctAnswer: string,
    explanation: string)

  /** The level or topic value that matches every question. */
  const ALL: string := "All"
  /** The time budget of a session, in seconds per question. */
  const SECONDS_PER_QUESTION: nat := 90
  /** `timeLeft` before any session has been started. */
  const INITIAL_TIME_LEFT: nat := 180
  const DEFAULT_LEVEL: string := "Level I"

  /** Whether `q` passes the setup filter; "All" is a wildcard for either field. */
  predicate Matches(q: Question, level: string, topic: string) {
    (level == ALL || q.level == level) && (topic == ALL || q.topic == topic)
  }

  /** The questions of `pool` that match the chosen level and topic, in pool order. */
  function FilterQuestions(pool: seq<Question>, level: string, topic: string): (r: seq<Question>)
    ensures |r| <= |pool|
    ensures forall q :: q in r <==> q in pool && Matches(q, level, topic)
  {
    if pool == [] then []
    else (if Matches(pool[0], level, topic) then [pool[0]] else [])
         + FilterQuestions(pool[1..], level, topic)
  }

  /** Filtering a concatenation filters each part and keeps them in order. */
  lemma {:induction false} FilterAppend(a: seq<Question>, b: seq<Question>, level: string, topic: string)
    ensures FilterQuestions(a + b, level, topic) == FilterQuestions(a, level, topic) + FilterQuestions(b, level, topic)
  {
    if a == [] {
      assert a + b == b;
    } else {
      assert (a + b)[1..] == a[1..] + b;
      FilterAppend(a[1..], b, level, topic);
    }
  }

  /** With both filters set to "All" the whole pool is kept, in order. */
  lemma {:induction false} FilterAllKeepsPool(pool: seq<Question>)
    ensures FilterQuestions(pool, ALL, ALL) == pool
  {
    if pool != [] {
      FilterAllKeepsPool(pool[1..]);
    }
  }

  /** Whether the answer recorded for `q` is its correct answer; a question
      without a recorded answer is not correct. */
  predicate AnsweredCorrectly(q: Question, answers: map<int, string>) {
    q.id in answers && answers[q.id] == q.correctAnswer
  }

  /** The left fold that counts correct answers, starting from `acc`. */
  function ScoreFrom(qs: seq<Question>, answers: map<int, string>, acc: nat): nat
  {
    if qs == [] then acc
    else ScoreFrom(qs[1..], answers, if AnsweredCorrectly(qs[0], answers) then acc + 1 else acc)
  }

  /** The score of a session: the fold of `calculateScore` from 0. */
  function Score(qs: seq<Question>, answers: map<int, string>): nat
  {
    ScoreFrom(qs, answers, 0)
  }

  /** The questions answered correctly, in order: the reference for `Score`. */
  function CorrectQuestions(qs: seq<Question>, answers: map<int, string>): (r: seq<Question>)
    ensures |r| <= |qs|
    ensures forall q :: q in r <==> q in qs && AnsweredCorrectly(q, answers)
  {
    if qs == [] then []
    else (if AnsweredCorrectly(qs[0], answers) then [qs[0]] else [])
         + CorrectQuestions(qs[1..], answers)
  }

  lemma {:induction false} ScoreFromCounts(qs: seq<Question>, answers: map<int, string>, acc: nat)
    ensures ScoreFrom(qs, answers, acc) == acc + |CorrectQuestions(qs, answers)|
  {
    if qs != [] {
      ScoreFromCounts(qs[1..], answers, if AnsweredCorrectly(qs[0], answers) then acc + 1 else acc);
    }
  }

  /** The score is the number of questions whose recorded answer equals the
      correct answer, so it lies between 0 and the number of questions, and it
      is full exactly when every question was answered correctly. */
  lemma ScoreIsCorrectCount(qs: seq<Question>, answers: map<int, string>)
    ensures Score(qs, answers) == |CorrectQuestions(qs, answers)|
    ensures Score(qs, answers) <= |qs|
    ensures Score(qs, answers) == |qs| <==> forall i :: 0 <= i < |qs| ==> AnsweredCorrectly(qs[i], answers)
  {
    ScoreFromCounts(qs, answers, 0);
    AllCorrectIffFull(qs, answers);
  }

  lemma {:induction false} AllCorrectIffFull(qs: seq<Question>, answers: map<int, string>)
    ensures |CorrectQuestions(qs, answers)| == |qs| <==> forall i :: 0 <= i < |qs| ==> AnsweredCorrectly(qs[i], answers)
  {
    if qs != [] {
      AllCorrectIffFull(qs[1..], answers);
      assert forall i :: 1 <= i < |qs| ==> qs[i] == qs[1..][i - 1];
    }
  }

  /** Answers recorded under ids of no question in the session, or any other
      difference between two answer maps away from the session's ids, do not
      change the score. */
  lemma {:induction false} ScoreIgnoresForeignAnswers(qs: seq<Question>, a1: map<int, string>, a2: map<int, string>, acc: nat)
    requires forall i :: 0 <= i < |qs| ==> AnsweredCorrectly(qs[i], a1) == AnsweredCorrectly(qs[i], a2)
    ensures ScoreFrom(qs, a1, acc) == ScoreFrom(qs, a2, acc)
  {
    if qs != [] {
      assert AnsweredCorrectly(qs[0], a1) == AnsweredCorrectly(qs[0], a2);
      ScoreIgnoresForeignAnswers(qs[1..], a1, a2, if AnsweredCorrectly(qs[0], a1) then acc + 1 else acc);
    }
  }

  /** An answer stored under an id that no session question has leaves the score as it was. */
  lemma ForeignAnswerKeepsScore(qs: seq<Question>, answers: map<int, string>, id: int, option: string)
    requires forall i :: 0 <= i < |qs| ==> qs[i].id != id
    ensures Score(qs, answers[id := option]) == Score(qs, answers)
  {
    ScoreIgnoresForeignAnswers(qs, answers[id := option], answers, 0);
  }

  /** Selecting an answer twice for the same question keeps only the second,
      and adds at most one key to the answer map. */
  lemma AnswerOverwrites(answers: map<int, string>, id: int, first: string, second: string)
    ensures answers[id := first][id := second] == answers[id := second]
    ensures |answers[id := second].Keys| <= |answers.Keys| + 1
    ensures id in answers ==> |answers[id := second].Keys| == |answers.Keys|
  {
    if id in answers {
      assert answers[id := second].Keys == answers.Keys;
    } else {
      assert answers[id := second].Keys == answers.Keys + {id};
    }
  }

  /** The three screens the component shows. */
  datatype Phase = Setup | Running | Results

  /** The state of one `ExamInterface`: the eight state variables of the
      component, over a fixed question pool. */
  class ExamInterface {
    const questionsData: seq<Question>
    var level: string
    var topic: string
    var filteredQuestions: seq<Question>
    var currentQuestionIndex: nat
    var userAnswers: map<int, string>
    var showResults: bool
    var timeLeft: nat
    var examStarted: bool

    /** The current index points into the session (or is 0 for an empty one),
        results and a running exam are never shown together, and the clock never
        holds more than the budget of a running session. */
    ghost predicate Valid()
      reads this
    {
      && (currentQuestionIndex == 0 || currentQuestionIndex < |filteredQuestions|)
      && !(examStarted && showResults)
      && (examStarted ==> timeLeft <= SECONDS_PER_QUESTION * |filteredQuestions|)
    }

    constructor (pool: seq<Question>)
      ensures Valid()
      ensures questionsData == pool
      ensures level == DEFAULT_LEVEL && topic == ALL
      ensures filteredQuestions == [] && currentQuestionIndex == 0 && userAnswers == map[]
      ensures !showResults && timeLeft == INITIAL_TIME_LEFT && !examStarted
      ensures CurrentPhase() == Setup
    {
      questionsData := pool;
      level := DEFAULT_LEVEL;
      topic := ALL;
      filteredQuestions := [];
      currentQuestionIndex := 0;
      userAnswers := map[];
      showResults := false;
      timeLeft := INITIAL_TIME_LEFT;
      examStarted := false;
    }

    /** Which screen is rendered. */
    function CurrentPhase(): (p: Phase)
      reads this
      ensures p == Setup <==> !examStarted && !showResults
      ensures p == Results <==> showResults
    {
      if !examStarted && !showResults then Setup
      else if showResults then Results
      else Running
    }

    /** The question the running screen shows; `None` where the component would
        read past the end of the session (an empty selection). */
    function CurrentQuestion(): (r: Option<Question>)
      reads this
      requires Valid()
      ensures r.Some? <==> |filteredQuestions| > 0
      ensures r.Some? ==> r.value == filteredQuestions[currentQuestionIndex]
    {
      if currentQuestionIndex < |filteredQuestions| then Some(filteredQuestions[currentQuestionIndex]) else None
    }

    /** The score shown on the results screen. */
    function CalculateScore(): (score: nat)
      reads this
      ensures score <= |filteredQuestions|
      ensures score == |CorrectQuestions(filteredQuestions, userAnswers)|
    {
      ScoreIsCorrectCount(filteredQuestions, userAnswers);
      Score(filteredQuestions, userAnswers)
    }

    /** The level selector. */
    method SetLevel(value: string)
      modifies this`level
      ensures level == value
    {
      level := value;
    }

    /** The topic selector. */
    method SetTopic(value: string)
      modifies this`topic
      ensures topic == value
    {
      topic := value;
    }

    /** Select the matching questions and start a fresh session with 90 seconds
        per question. */
    method StartExam()
      modifies this
      ensures Valid()
      ensures level == old(level) && topic == old(topic)
      ensures filteredQuestions == FilterQuestions(questionsData, level, topic)
      ensures currentQuestionIndex == 0 && userAnswers == map[]
      ensures !showResults && examStarted
      ensures timeLeft == SECONDS_PER_QUESTION * |filteredQuestions|
      ensures CurrentPhase() == Running
    {
      var questions := FilterQuestions(questionsData, level, topic);
      filteredQuestions := questions;
      currentQuestionIndex := 0;
      userAnswers := map[];
      showResults := false;
      timeLeft := |questions| * SECONDS_PER_QUESTION;
      examStarted := true;
    }

    /** Record `option` as the answer to question `questionId`, replacing any earlier answer. */
    method HandleAnswerSelect(questionId: int, option: string)
      requires Valid()
      modifies this`userAnswers
      ensures Valid()
      ensures userAnswers == old(userAnswers)[questionId := option]
    {
      userAnswers := userAnswers[questionId := option];
    }

    /** "Next" moves to the following question; on the last one it is "Finish". */
    method HandleNextQuestion()
      requires Valid()
      modifies this
      ensures Valid()
      ensures level == old(level) && topic == old(topic)
      ensures filteredQuestions == old(filteredQuestions) && userAnswers == old(userAnswers)
      ensures timeLeft == old(timeLeft)
      ensures old(currentQuestionIndex) < |filteredQuestions| - 1 ==>
        currentQuestionIndex == old(currentQuestionIndex) + 1
        && showResults == old(showResults) && examStarted == old(examStarted)
      ensures old(currentQuestionIndex) >= |filteredQuestions| - 1 ==>
        currentQuestionIndex == old(currentQuestionIndex) && showResults && !examStarted
        && CurrentPhase() == Results
    {
      if currentQuestionIndex < |filteredQuestions| - 1 {
        currentQuestionIndex := currentQuestionIndex + 1;
      } else {
        HandleShowResults();
      }
    }

    /** Finish the session and show the results. */
    method HandleShowResults()
      requires Valid()
      modifies this`showResults, this`examStarted
      ensures Valid()
      ensures showResults && !examStarted
      ensures CurrentPhase() == Results
    {
      showResults := true;
      examStarted := false;
    }

    /** One firing of the timer effect: while a session runs with time left, one
        second passes; a started session with no time left finishes. */
    method Tick()
      requires Valid()
      modifies this`timeLeft, this`showResults, this`examStarted
      ensures Valid()
      ensures old(examStarted) && old(timeLeft) > 0 && !old(showResults) ==>
        timeLeft == old(timeLeft) - 1 && showResults == old(showResults) && examStarted == old(examStarted)
      ensures old(examStarted) && old(timeLeft) == 0 ==>
        timeLeft == 0 && showResults && !examStarted && CurrentPhase() == Results
      ensures !old(examStarted) ==> unchanged(this)
    {
      if examStarted && timeLeft > 0 && !showResults {
        timeLeft := timeLeft - 1;
      } else if timeLeft == 0 && examStarted {
        HandleShowResults();
      }
    }

    /** "Take Another Exam" on the results screen returns to the setup screen. */
    method TakeAnotherExam()
      requires Valid()
      modifies this`showResults, this`examStarted
      ensures Valid()
      ensures !showResults && !examStarted
      ensures CurrentPhase() == Setup
    {
      showResults := false;
      examStarted := false;
    }
  }

  /** A session over an empty selection has a budget of 0 seconds. The
      running screen it enters has no question to show (the component reads
      past the end of the selection there), and in the handler and timer
      state machine the first firing of the timer finishes it, with score 0. */
  method EmptySelectionFinishesAtOnce(pool: seq<Question>, level: string, topic: string)
    returns (phaseAfterStart: Phase, shownAfterStart: Option<Question>, phaseAfterTick: Phase, score: nat)
    requires FilterQuestions(pool, level, topic) == []
    ensures phaseAfterStart == Running && shownAfterStart == None
    ensures phaseAfterTick == Results && score == 0
  {
    var exam := new ExamInterface(pool);
    exam.SetLevel(level);
    exam.SetTopic(topic);
    exam.StartExam();
    phaseAfterStart := exam.CurrentPhase();
    shownAfterStart := exam.CurrentQuestion();
    exam.Tick();
    phaseAfterTick := exam.CurrentPhase();
    score := exam.CalculateScore();
  }
}
