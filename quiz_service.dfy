/**
 * The quiz-question and quiz-submission services: answers are validated by question
 * id against the answer key, a list of answer letters is mapped onto the questions by
 * position with the time split evenly, each attempt is logged, and the pass mark is 70.
 */
module QuizSubmission {
  import opened Prelude
  import opened Text
  import opened QuizBank
  import AssessmentRepo
  import AssessmentQuiz
  import opened Ordering

  /** An answer as the caller sends it; a missing key is None. */
  datatype UserAnswer = UserAnswer(questionId: Option<string>, selectedAnswer: Option<string>, timeSpent: Option<int>)

  /** Question id to correct letter; for a repeated id the later question wins. */
  function AnswerKey(qs: seq<Question>): (key: map<string, string>)
    ensures key.Keys == set q <- qs :: q.id
  {
    if qs == [] then map[]
    else
      var last := qs[|qs| - 1];
      AnswerKey(qs[..|qs| - 1])[last.id := last.correctAnswer]
  }

  predicate DistinctIds(qs: seq<Question>) {
    forall i, j :: 0 <= i < j < |qs| ==> qs[i].id != qs[j].id
  }

  /** With distinct ids, the key gives every question its own correct letter. */
  lemma {:induction false} AnswerKeyOfDistinct(qs: seq<Question>)
    requires DistinctIds(qs)
    ensures forall i :: 0 <= i < |qs| ==> AnswerKey(qs)[qs[i].id] == qs[i].correctAnswer
  {
    if qs != [] {
      var init := qs[..|qs| - 1];
      AnswerKeyOfDistinct(init);
      forall i | 0 <= i < |qs| ensures AnswerKey(qs)[qs[i].id] == qs[i].correctAnswer {
        if i < |qs| - 1 {
          assert init[i] == qs[i];
        }
      }
    }
  }

  /** The correctness test: a non-empty selection equal to the key ignoring case. */
  predicate Matches(selected: string, correct: string) {
    selected != "" && correct != "" && Lower(selected) == Lower(correct)
  }

  /** The answer names a question of the key. */
  predicate Known(key: map<string, string>, ua: UserAnswer) {
    ua.questionId.Some? && ua.questionId.value in key
  }

  /** The selection as the service reads it: missing counts as "", surrounding whitespace removed. */
  function Selection(ua: UserAnswer): (s: string)
    ensures s == [] || (!IsSpace(s[0]) && !IsSpace(s[|s| - 1]))
  {
    Strip(ua.selectedAnswer.GetOr(""))
  }

  /** An answer to a known question with selection `selected`, checked against the key. */
  function CheckedAnswer(key: map<string, string>, ua: UserAnswer, selected: string): (v: AssessmentRepo.QuizAnswer)
    requires Known(key, ua)
    ensures v.questionId == ua.questionId.value && v.correctAnswer == Some(key[ua.questionId.value])
    ensures v.selectedAnswer == selected
    ensures v.isCorrect <==> Matches(selected, key[ua.questionId.value])
    ensures v.timeSpent == Some(ua.timeSpent.GetOr(0))
  {
    var correct := key[ua.questionId.value];
    AssessmentRepo.QuizAnswer(ua.questionId.value, selected, Some(correct), Matches(selected, correct),
                              Some(ua.timeSpent.GetOr(0)))
  }

  /** The answers whose question is known, checked with selections read by `select`, in input order. */
  function ValidatedBy(key: map<string, string>, uas: seq<UserAnswer>, select: UserAnswer -> string)
    : (vs: seq<AssessmentRepo.QuizAnswer>)
    ensures |vs| <= |uas|
  {
    if uas == [] then []
    else
      var ua := uas[|uas| - 1];
      ValidatedBy(key, uas[..|uas| - 1], select) + (if Known(key, ua) then [CheckedAnswer(key, ua, select(ua))] else [])
  }

  /** `validate_quiz_answers`' result: the answers whose question is known, checked, in input order. */
  function Validated(key: map<string, string>, uas: seq<UserAnswer>): (vs: seq<AssessmentRepo.QuizAnswer>)
    ensures |vs| <= |uas|
  {
    ValidatedBy(key, uas, Selection)
  }

  lemma {:induction false} ValidatedByAppend(key: map<string, string>, a: seq<UserAnswer>, b: seq<UserAnswer>,
                                              select: UserAnswer -> string)
    ensures ValidatedBy(key, a + b, select) == ValidatedBy(key, a, select) + ValidatedBy(key, b, select)
    decreases |b|
  {
    if b != [] {
      var binit := b[..|b| - 1];
      assert (a + b)[..|a + b| - 1] == a + binit;
      ValidatedByAppend(key, a, binit, select);
    } else {
      assert a + b == a;
    }
  }

  /** Validation runs answer by answer: splitting the input splits the output. */
  lemma ValidatedAppend(key: map<string, string>, a: seq<UserAnswer>, b: seq<UserAnswer>)
    ensures Validated(key, a + b) == Validated(key, a) + Validated(key, b)
  {
    ValidatedByAppend(key, a, b, Selection);
  }

  /** An answer to an unknown or missing question is dropped. */
  lemma UnknownDropped(key: map<string, string>, ua: UserAnswer)
    requires !Known(key, ua)
    ensures Validated(key, [ua]) == []
  {
  }

  lemma {:induction false} ValidatedByAllKnown(key: map<string, string>, uas: seq<UserAnswer>, select: UserAnswer -> string)
    requires forall i :: 0 <= i < |uas| ==> Known(key, uas[i])
    ensures |ValidatedBy(key, uas, select)| == |uas|
    ensures forall i :: 0 <= i < |uas| ==> ValidatedBy(key, uas, select)[i] == CheckedAnswer(key, uas[i], select(uas[i]))
  {
    if uas != [] {
      var init := uas[..|uas| - 1];
      ValidatedByAllKnown(key, init, select);
      var last := uas[|uas| - 1];
      assert ValidatedBy(key, uas, select) == ValidatedBy(key, init, select) + [CheckedAnswer(key, last, select(last))];
    }
  }

  /** When every answer names a known question, every answer is kept, one for one. */
  lemma ValidatedAllKnown(key: map<string, string>, uas: seq<UserAnswer>)
    requires forall i :: 0 <= i < |uas| ==> Known(key, uas[i])
    ensures |Validated(key, uas)| == |uas|
    ensures forall i :: 0 <= i < |uas| ==> Validated(key, uas)[i] == CheckedAnswer(key, uas[i], Selection(uas[i]))
  {
    ValidatedByAllKnown(key, uas, Selection);
  }

  /** A blank selection is never correct. */
  lemma BlankSelectionIncorrect(key: map<string, string>, ua: UserAnswer)
    requires Known(key, ua)
    requires forall c <- ua.selectedAnswer.GetOr("") :: IsSpace(c)
    ensures !CheckedAnswer(key, ua, Selection(ua)).isCorrect
  {
    StripEmpty(ua.selectedAnswer.GetOr(""));
  }

  /** The checking loop of `validate_quiz_answers`. */
  method ValidateLoop(key: map<string, string>, uas: seq<UserAnswer>) returns (vs: seq<AssessmentRepo.QuizAnswer>)
    ensures vs == Validated(key, uas)
  {
    vs := [];
    var i := 0;
    while i < |uas|
      invariant 0 <= i <= |uas|
      invariant vs == Validated(key, uas[..i])
    {
      assert uas[..i + 1][..i] == uas[..i];
      var selected := Selection(uas[i]);
      if Known(key, uas[i]) {
        vs := vs + [CheckedAnswer(key, uas[i], selected)];
      }
      i := i + 1;
    }
    assert uas[..i] == uas;
  }

  /** `validate_quiz_answers`: the lookup error is raised; otherwise the checked answers. */
  method ValidateQuizAnswers(bank: Bank, courseId: string, quizId: string, uas: seq<UserAnswer>)
    returns (r: Result<seq<AssessmentRepo.QuizAnswer>>)
    ensures r.Err? <==> LookupQuiz(bank, courseId, quizId).Err?
    ensures r.Err? ==> r.error == LookupQuiz(bank, courseId, quizId).error
    ensures r.Ok? ==> r.value == Validated(AnswerKey(bank[courseId][quizId].questions), uas)
  {
    var quiz := LookupQuiz(bank, courseId, quizId);
    if quiz.Err? {
      return Err(quiz.error);
    }
    var vs := ValidateLoop(AnswerKey(quiz.value.questions), uas);
    return Ok(vs);
  }

  /**
   * The i-th letter becomes the answer to the i-th question, with an equal share of
   * the time (floor division); letters past the last question are dropped.
   */
  function Positional(qs: seq<Question>, answers: seq<string>, timeTaken: int): (uas: seq<UserAnswer>)
    ensures |uas| == Min(|answers|, |qs|)
    ensures forall i :: 0 <= i < |uas| ==>
      uas[i] == UserAnswer(Some(qs[i].id), Some(answers[i]), Some(timeTaken / |qs|))
  {
    seq(Min(|answers|, |qs|), i requires 0 <= i < Min(|answers|, |qs|) =>
      UserAnswer(Some(qs[i].id), Some(answers[i]), Some(timeTaken / |qs|)))
  }

  /** The conversion loop of `submit_quiz`. */
  method PositionalLoop(qs: seq<Question>, answers: seq<string>, timeTaken: int) returns (uas: seq<UserAnswer>)
    ensures uas == Positional(qs, answers, timeTaken)
  {
    uas := [];
    var i := 0;
    while i < |answers|
      invariant 0 <= i <= |answers|
      invariant |uas| == Min(i, |qs|)
      invariant forall k :: 0 <= k < |uas| ==> uas[k] == UserAnswer(Some(qs[k].id), Some(answers[k]), Some(timeTaken / |qs|))
    {
      if i < |qs| {
        uas := uas + [UserAnswer(Some(qs[i].id), Some(answers[i]), Some(timeTaken / |qs|))];
      }
      i := i + 1;
    }
  }

  /**
   * With distinct question ids, submitting letters grades the i-th letter (stripped)
   * against the i-th question's key, for every position the questions cover.
   */
  lemma PositionalGrading(qs: seq<Question>, answers: seq<string>, timeTaken: int)
    requires DistinctIds(qs)
    ensures var vs := Validated(AnswerKey(qs), Positional(qs, answers, timeTaken));
      |vs| == Min(|answers|, |qs|)
      && forall i :: 0 <= i < |vs| ==>
        vs[i].questionId == qs[i].id && (vs[i].isCorrect <==> Matches(Strip(answers[i]), qs[i].correctAnswer))
  {
    var key := AnswerKey(qs);
    var uas := Positional(qs, answers, timeTaken);
    forall i | 0 <= i < |uas| ensures Known(key, uas[i]) {
      assert qs[i] in qs;
    }
    ValidatedAllKnown(key, uas);
    AnswerKeyOfDistinct(qs);
  }

  /** One document of the `quiz_attempts` collection. */
  datatype QuizAttempt = QuizAttempt(userId: string, courseId: string, quizId: string,
                                     answers: seq<AssessmentRepo.QuizAnswer>, score: real, correctAnswers: nat,
                                     totalQuestions: nat, timeTaken: int, timestamp: string, completed: bool)

  /** The reply of `submit_quiz`. */
  datatype Outcome = Outcome(score: real, correctAnswers: nat, totalQuestions: nat, timeTaken: int,
                             answers: seq<AssessmentRepo.QuizAnswer>, passed: bool)

  const PassMark: real := 70.0

  /** The `quiz_attempts` collection, in the order attempts were added. */
  class AttemptLog {
    var attempts: seq<QuizAttempt>

    constructor()
      ensures attempts == []
    {
      attempts := [];
    }

    method Add(a: QuizAttempt)
      modifies this
      ensures attempts == old(attempts) + [a]
    {
      attempts := attempts + [a];
    }

    /**
     * `get_user_quiz_attempts`: the user's attempts, narrowed by course and quiz when
     * those are non-empty, newest timestamp first.
     */
    function UserAttempts(userId: string, courseId: string, quizId: string): (r: seq<QuizAttempt>)
      reads this
      ensures forall a <- r :: a in attempts && AttemptMatches(a, userId, courseId, quizId)
      ensures forall a <- attempts :: AttemptMatches(a, userId, courseId, quizId) ==> a in r
      ensures forall i, j :: 0 <= i < j < |r| ==> StrLe(r[j].timestamp, r[i].timestamp)
      ensures multiset(r) == multiset(FilterAttempts(attempts, userId, courseId, quizId))
    {
      LaterOrSameOrders();
      var matching := FilterAttempts(attempts, userId, courseId, quizId);
      SortByElements(matching, LaterOrSame);
      SortBy(matching, LaterOrSame)
    }
  }

  /** `order_by("timestamp", direction="DESCENDING")`: a later or equal timestamp first. */
  predicate LaterOrSame(a: QuizAttempt, b: QuizAttempt) {
    StrLe(b.timestamp, a.timestamp)
  }

  lemma LaterOrSameOrders()
    ensures TotalPreorder(LaterOrSame)
  {
    forall a: QuizAttempt, b: QuizAttempt ensures LaterOrSame(a, b) || LaterOrSame(b, a) {
      StrLeTotal(a.timestamp, b.timestamp);
    }
    forall a: QuizAttempt, b: QuizAttempt, c: QuizAttempt | LaterOrSame(a, b) && LaterOrSame(b, c)
      ensures LaterOrSame(a, c)
    {
      StrLeTrans(c.timestamp, b.timestamp, a.timestamp);
    }
  }

  /** The query's filters; an empty course or quiz id does not filter. */
  predicate AttemptMatches(a: QuizAttempt, userId: string, courseId: string, quizId: string) {
    a.userId == userId && (courseId == "" || a.courseId == courseId) && (quizId == "" || a.quizId == quizId)
  }

  function FilterAttempts(s: seq<QuizAttempt>, userId: string, courseId: string, quizId: string): (r: seq<QuizAttempt>)
    ensures forall a <- r :: a in s && AttemptMatches(a, userId, courseId, quizId)
    ensures forall a <- s :: AttemptMatches(a, userId, courseId, quizId) ==> a in r
    ensures forall a :: multiset(r)[a] == if AttemptMatches(a, userId, courseId, quizId) then multiset(s)[a] else 0
  {
    if s == [] then []
    else
      var a := s[|s| - 1];
      assert s == s[..|s| - 1] + [a];
      FilterAttempts(s[..|s| - 1], userId, courseId, quizId) + (if AttemptMatches(a, userId, courseId, quizId) then [a] else [])
  }

  /**
   * `QuizSubmissionService.submit_quiz`: the lookup error is returned and nothing is
   * logged; otherwise the letters are validated by position, one attempt is logged,
   * and the outcome passes at 70.
   */
  method SubmitQuiz(bank: Bank, log: AttemptLog, userId: string, courseId: string, quizId: string,
                    answers: seq<string>, timeTaken: int, nowIso: string)
    returns (r: Result<Outcome>)
    modifies log
    ensures r.Err? <==> LookupQuiz(bank, courseId, quizId).Err?
    ensures r.Err? ==> r.error == LookupQuiz(bank, courseId, quizId).error && log.attempts == old(log.attempts)
    ensures r.Ok? ==> var qs := bank[courseId][quizId].questions;
      var vs := Validated(AnswerKey(qs), Positional(qs, answers, timeTaken));
      r.value.answers == vs && r.value.correctAnswers == CorrectCount(vs) && r.value.totalQuestions == |qs|
      && r.value.score == Percentage(CorrectCount(vs), |qs|) && r.value.timeTaken == timeTaken
      && (r.value.passed <==> r.value.score >= PassMark)
    ensures r.Ok? ==> log.attempts == old(log.attempts) + [QuizAttempt(userId, courseId, quizId, r.value.answers,
      r.value.score, r.value.correctAnswers, r.value.totalQuestions, timeTaken, nowIso, true)]
  {
    var quiz := LookupQuiz(bank, courseId, quizId);
    if quiz.Err? {
      return Err(quiz.error);
    }
    var qs := quiz.value.questions;
    var uas := PositionalLoop(qs, answers, timeTaken);
    var validated := ValidateQuizAnswers(bank, courseId, quizId, uas);
    assert validated.Ok?;
    var vs := validated.value;
    var correct := CorrectCount(vs);
    var score := Percentage(correct, |qs|);
    log.Add(QuizAttempt(userId, courseId, quizId, vs, score, correct, |qs|, timeTaken, nowIso, true));
    r := Ok(Outcome(score, correct, |qs|, timeTaken, vs, score >= PassMark));
  }

  /** The letters a, b, c, d, a for the default quiz: four of five right. */
  function FourOfFive(): seq<string> { ["a", "b", "c", "d", "a"] }

  lemma FourOfFiveTrimmed()
    ensures forall i :: 0 <= i < 5 ==> Strip(FourOfFive()[i]) == FourOfFive()[i]
  {
    forall i | 0 <= i < 5 ensures Strip(FourOfFive()[i]) == FourOfFive()[i] {
      StripOfTrimmed(FourOfFive()[i]);
    }
  }

  lemma LetterMatches()
    ensures Matches("a", "a") && Matches("b", "b") && Matches("c", "c") && Matches("d", "d") && !Matches("a", "c")
  {
    assert Lower("a") == "a" && Lower("b") == "b" && Lower("c") == "c" && Lower("d") == "d";
  }

  /** Against the key a, b, c, d, c the letters a, b, c, d, a get the first four right and the last wrong. */
  lemma FourOfFiveGraded(qs: seq<Question>, timeTaken: int)
    requires |qs| == 5 && DistinctIds(qs)
    requires qs[0].correctAnswer == "a" && qs[1].correctAnswer == "b" && qs[2].correctAnswer == "c"
      && qs[3].correctAnswer == "d" && qs[4].correctAnswer == "c"
    ensures var vs := Validated(AnswerKey(qs), Positional(qs, FourOfFive(), timeTaken));
      |vs| == 5 && vs[0].isCorrect && vs[1].isCorrect && vs[2].isCorrect && vs[3].isCorrect && !vs[4].isCorrect
  {
    PositionalGrading(qs, FourOfFive(), timeTaken);
    FourOfFiveTrimmed();
    LetterMatches();
  }

  lemma FourOfFiveOn(qs: seq<Question>, timeTaken: int)
    requires |qs| == 5 && DistinctIds(qs)
    requires qs[0].correctAnswer == "a" && qs[1].correctAnswer == "b" && qs[2].correctAnswer == "c"
      && qs[3].correctAnswer == "d" && qs[4].correctAnswer == "c"
    ensures CorrectCount(Validated(AnswerKey(qs), Positional(qs, FourOfFive(), timeTaken))) == 4
  {
    FourOfFiveGraded(qs, timeTaken);
    CorrectCountFourOfFive(Validated(AnswerKey(qs), Positional(qs, FourOfFive(), timeTaken)));
  }

  lemma FourOfFiveScoresEighty(timeTaken: int)
    ensures var qs := DefaultBank()["data-structures"]["quiz-1"].questions;
      var vs := Validated(AnswerKey(qs), Positional(qs, FourOfFive(), timeTaken));
      CorrectCount(vs) == 4 && Percentage(CorrectCount(vs), |qs|) == 80.0
  {
    var qs := DefaultBank()["data-structures"]["quiz-1"].questions;
    DefaultAnswerKey();
    assert DistinctIds(qs);
    FourOfFiveOn(qs, timeTaken);
  }

  lemma AssessmentFailsFourOfFive(timeTaken: int)
    ensures !AssessmentQuiz.Outcome(DefaultBank()["data-structures"]["quiz-1"], FourOfFive(), timeTaken).passed
  {
    var qs := DefaultBank()["data-structures"]["quiz-1"].questions;
    var g := AssessmentQuiz.Grade(qs, FourOfFive());
    DefaultAnswerKey();
    assert Lower("a") == "a" && Lower("b") == "b" && Lower("c") == "c" && Lower("d") == "d";
    CorrectCountFourOfFive(g);
  }

  /**
   * The two quiz services disagree on the default quiz: four right answers out of
   * five score 80, which passes here (70) and fails the assessment-domain service (85).
   */
  lemma PassMarksDiffer(timeTaken: int)
    ensures var qs := DefaultBank()["data-structures"]["quiz-1"].questions;
      var vs := Validated(AnswerKey(qs), Positional(qs, FourOfFive(), timeTaken));
      Percentage(CorrectCount(vs), |qs|) >= PassMark
      && !AssessmentQuiz.Outcome(DefaultBank()["data-structures"]["quiz-1"], FourOfFive(), timeTaken).passed
  {
    FourOfFiveScoresEighty(timeTaken);
    AssessmentFailsFourOfFive(timeTaken);
  }

  /** A summary of one quiz: its title and number of questions. */
  datatype QuizSummary = QuizSummary(title: string, questionCount: nat)

  function CourseSummaries(quizzes: map<string, Quiz>): (r: map<string, QuizSummary>)
    ensures r.Keys == quizzes.Keys
    ensures forall q <- quizzes :: r[q].title == quizzes[q].title && r[q].questionCount == |quizzes[q].questions|
  {
    map q <- quizzes :: QuizSummary(quizzes[q].title, |quizzes[q].questions|)
  }

  /** Every course and quiz of the bank, each with its title and question count. */
  function Summaries(bank: Bank): (r: map<string, map<string, QuizSummary>>)
    ensures r.Keys == bank.Keys
    ensures forall c <- bank :: r[c].Keys == bank[c].Keys
    ensures forall c <- bank :: forall q <- bank[c] :: r[c][q].questionCount == |bank[c][q].questions|
  {
    map c <- bank :: CourseSummaries(bank[c])
  }

  /** The inner loop of `get_all_courses_quizzes`, over one course's quizzes. */
  method SummariseCourse(quizzes: map<string, Quiz>) returns (r: map<string, QuizSummary>)
    ensures r == CourseSummaries(quizzes)
  {
    r := map[];
    var pending := quizzes.Keys;
    while pending != {}
      invariant pending <= quizzes.Keys
      invariant r.Keys == quizzes.Keys - pending
      invariant forall q <- r :: r[q] == QuizSummary(quizzes[q].title, |quizzes[q].questions|)
      decreases |pending|
    {
      var q :| q in pending;
      r := r[q := QuizSummary(quizzes[q].title, |quizzes[q].questions|)];
      pending := pending - {q};
    }
  }

  /** `get_all_courses_quizzes`. */
  method AllCoursesQuizzes(bank: Bank) returns (r: map<string, map<string, QuizSummary>>)
    ensures r == Summaries(bank)
  {
    r := map[];
    var pending := bank.Keys;
    while pending != {}
      invariant pending <= bank.Keys
      invariant r.Keys == bank.Keys - pending
      invariant forall c <- r :: r[c] == CourseSummaries(bank[c])
      decreases |pending|
    {
      var c :| c in pending;
      var s := SummariseCourse(bank[c]);
      r := r[c := s];
      pending := pending - {c};
    }
  }
}
