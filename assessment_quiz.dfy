/**
 * The assessment-domain quiz service: it hands out a quiz without its answer key and
 * grades a list of answer letters by position, case-insensitively. The pass mark is 85.
 */
module AssessmentQuiz {
  import opened Prelude
  import opened Text
  import opened QuizBank
  import AssessmentRepo
  import ProgressRepo

  /** A question as sent to the frontend: every stored field except the correct answer. */
  datatype PublicQuestion = PublicQuestion(id: string, question: string, options: seq<Choice>)

  datatype PublicQuiz = PublicQuiz(title: string, questions: seq<PublicQuestion>)

  function Hide(q: Question): PublicQuestion {
    PublicQuestion(q.id, q.question, q.options)
  }

  /** Putting an answer back on a public question: `Hide` loses only the answer key. */
  function WithAnswer(p: PublicQuestion, answer: string): Question {
    Question(p.id, p.question, p.options, answer)
  }

  function Hidden(qs: seq<Question>): (ps: seq<PublicQuestion>)
    ensures |ps| == |qs|
    ensures forall i :: 0 <= i < |qs| ==> ps[i].id == qs[i].id && ps[i].options == qs[i].options
  {
    seq(|qs|, i requires 0 <= i < |qs| => Hide(qs[i]))
  }

  /** The copy-and-remove loop of `get_quiz_questions`. */
  method HideAnswers(qs: seq<Question>) returns (ps: seq<PublicQuestion>)
    ensures ps == Hidden(qs)
  {
    ps := [];
    var i := 0;
    while i < |qs|
      invariant 0 <= i <= |qs|
      invariant |ps| == i && forall k :: 0 <= k < i ==> ps[k] == Hide(qs[k])
    {
      ps := ps + [Hide(qs[i])];
      i := i + 1;
    }
  }

  /** The public questions with the answer key put back are the stored questions. */
  lemma HiddenRoundTrip(qs: seq<Question>)
    ensures var ps := Hidden(qs);
      seq(|ps|, i requires 0 <= i < |ps| => WithAnswer(ps[i], qs[i].correctAnswer)) == qs
  {
  }

  /** `get_quiz_questions`: the title and the questions without their answers, or the lookup error. */
  method GetQuizQuestions(bank: Bank, courseId: string, quizId: string) returns (r: Result<PublicQuiz>)
    ensures r.Err? <==> LookupQuiz(bank, courseId, quizId).Err?
    ensures r.Err? ==> r.error == LookupQuiz(bank, courseId, quizId).error
    ensures r.Ok? ==> r.value == PublicQuiz(bank[courseId][quizId].title, Hidden(bank[courseId][quizId].questions))
  {
    var quiz := LookupQuiz(bank, courseId, quizId);
    if quiz.Err? {
      return Err(quiz.error);
    }
    var ps := HideAnswers(quiz.value.questions);
    return Ok(PublicQuiz(quiz.value.title, ps));
  }

  /** One graded answer: correct when the letters agree ignoring case. */
  function GradeOne(q: Question, answer: string): (a: AssessmentRepo.QuizAnswer)
    ensures a.questionId == q.id && a.selectedAnswer == answer && a.correctAnswer == Some(q.correctAnswer)
    ensures a.isCorrect <==> Lower(answer) == Lower(q.correctAnswer)
    ensures a.timeSpent.None?
  {
    AssessmentRepo.QuizAnswer(q.id, answer, Some(q.correctAnswer), Lower(answer) == Lower(q.correctAnswer), None)
  }

  /** The i-th answer is graded against the i-th question; answers past the last question are dropped. */
  function Grade(qs: seq<Question>, answers: seq<string>): (g: seq<AssessmentRepo.QuizAnswer>)
    ensures |g| == Min(|answers|, |qs|)
    ensures forall i :: 0 <= i < |g| ==> g[i] == GradeOne(qs[i], answers[i])
  {
    seq(Min(|answers|, |qs|), i requires 0 <= i < Min(|answers|, |qs|) => GradeOne(qs[i], answers[i]))
  }

  /** The grading loop of `submit_quiz`, with its running count of correct answers. */
  method GradeAnswers(qs: seq<Question>, answers: seq<string>) returns (validated: seq<AssessmentRepo.QuizAnswer>, correct: nat)
    ensures validated == Grade(qs, answers)
    ensures correct == CorrectCount(validated)
  {
    validated := [];
    correct := 0;
    var i := 0;
    while i < |answers|
      invariant 0 <= i <= |answers|
      invariant |validated| == Min(i, |qs|)
      invariant forall k :: 0 <= k < |validated| ==> validated[k] == GradeOne(qs[k], answers[k])
      invariant correct == CorrectCount(validated)
    {
      if i < |qs| {
        var a := GradeOne(qs[i], answers[i]);
        assert (validated + [a])[..|validated|] == validated;
        if a.isCorrect {
          correct := correct + 1;
        }
        validated := validated + [a];
      }
      i := i + 1;
    }
  }

  /** Answers beyond the number of questions change nothing. */
  lemma ExtraAnswersIgnored(qs: seq<Question>, answers: seq<string>, extra: seq<string>)
    requires |answers| >= |qs|
    ensures Grade(qs, answers + extra) == Grade(qs, answers)
  {
  }

  /** The reply of `submit_quiz`. */
  datatype QuizOutcome = QuizOutcome(score: real, correctAnswers: nat, totalQuestions: nat, timeTaken: int,
                                     answers: seq<AssessmentRepo.QuizAnswer>, passed: bool)

  const PassMark: real := 85.0

  /** The outcome of grading `answers` against `quiz`. */
  function Outcome(quiz: Quiz, answers: seq<string>, timeTaken: int): (o: QuizOutcome)
    ensures o.correctAnswers <= o.totalQuestions == |quiz.questions|
    ensures o.answers == Grade(quiz.questions, answers) && o.correctAnswers == CorrectCount(o.answers)
    ensures o.score == Percentage(o.correctAnswers, o.totalQuestions)
    ensures o.passed <==> o.score >= PassMark
    ensures o.timeTaken == timeTaken
  {
    var g := Grade(quiz.questions, answers);
    var correct := CorrectCount(g);
    var score := Percentage(correct, |quiz.questions|);
    QuizOutcome(score, correct, |quiz.questions|, timeTaken, g, score >= PassMark)
  }

  /**
   * `submit_quiz`: an unknown course or quiz gives "Quiz not found" and changes
   * nothing; otherwise the graded answers are saved as a quiz submission with the
   * score, the quiz progress is updated with the same score and pass flag, and the
   * outcome is returned.
   */
  method SubmitQuiz(bank: Bank, assessments: AssessmentRepo.AssessmentRepository,
                    progress: ProgressRepo.ProgressRepository, userId: string, courseId: string,
                    quizId: string, answers: seq<string>, timeTaken: int, submissionId: string, now: int)
    returns (r: Result<QuizOutcome>)
    modifies assessments, progress
    ensures r.Err? <==> !(courseId in bank && quizId in bank[courseId])
    ensures r.Err? ==> r.error == "Quiz not found"
    ensures r.Err? ==> assessments.submissions == old(assessments.submissions) && progress.docs == old(progress.docs)
    ensures r.Ok? ==> r.value == Outcome(bank[courseId][quizId], answers, timeTaken)
    ensures r.Ok? ==> assessments.submissions == old(assessments.submissions)[submissionId :=
      AssessmentRepo.NewSubmission(submissionId, userId, courseId, "quiz", r.value.score, Some(r.value.answers),
                                   None, None, None, None, now)]
    ensures r.Ok? ==> var prev := old(progress.Current(userId, courseId));
      progress.docs == old(progress.docs)[ProgressRepo.DocId(userId, courseId) :=
        ProgressRepo.Stamp(prev.(quiz := Some(ProgressRepo.QuizAfter(prev.quiz, r.value.score, r.value.passed, now))), now)]
    ensures assessments.events == old(assessments.events)
  {
    if courseId !in bank || quizId !in bank[courseId] {
      return Err("Quiz not found");
    }
    var quiz := bank[courseId][quizId];
    var validated, correct := GradeAnswers(quiz.questions, answers);
    var total := |quiz.questions|;
    var score := Percentage(correct, total);
    var passed := score >= PassMark;
    var _ := assessments.CreateSubmission(submissionId, userId, courseId, "quiz", score, Some(validated),
                                          None, None, None, None, now);
    progress.UpdateQuizProgress(userId, courseId, score, passed, now);
    r := Ok(QuizOutcome(score, correct, total, timeTaken, validated, passed));
  }

  /** `get_quiz_attempts`: the user's ten newest quiz submissions for the course. */
  function QuizAttempts(stream: seq<AssessmentRepo.Submission>, userId: string, courseId: string)
    : (r: seq<AssessmentRepo.Submission>)
    ensures |r| <= 10 && AssessmentRepo.NewestFirst(r)
    ensures forall s <- r :: s in stream && s.kind == "quiz" && s.userId == userId && s.courseId == courseId
    ensures var matching := AssessmentRepo.Filter(stream, userId, courseId, Some("quiz"));
      multiset(r) == multiset(AssessmentRepo.Take(matching, 10))
  {
    AssessmentRepo.UserSubmissions(stream, userId, courseId, Some("quiz"), 10)
  }

  /** On the five-question quiz a pass at 85 needs every answer right. */
  lemma DefaultQuizNeedsAllCorrect(answers: seq<string>, timeTaken: int)
    ensures var o := Outcome(DefaultBank()["data-structures"]["quiz-1"], answers, timeTaken);
      o.passed <==> o.correctAnswers == 5
  {
    var o := Outcome(DefaultBank()["data-structures"]["quiz-1"], answers, timeTaken);
    assert o.totalQuestions == 5;
    if o.correctAnswers < 5 {
      PercentageMonotone(o.correctAnswers, 4, 5);
    }
  }

  /** The expected answers in any letter case score 100 and pass. */
  lemma DefaultQuizKeyPasses(timeTaken: int)
    ensures var o := Outcome(DefaultBank()["data-structures"]["quiz-1"], ["A", "b", "C", "d", "c"], timeTaken);
      o.score == 100.0 && o.passed
  {
    var qs := DefaultBank()["data-structures"]["quiz-1"].questions;
    var g := Grade(qs, ["A", "b", "C", "d", "c"]);
    DefaultAnswerKey();
    assert forall i :: 0 <= i < 5 ==> g[i].isCorrect;
  }
}
