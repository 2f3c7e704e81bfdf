/**
 * The quiz question bank both quiz services hold in memory, the lookup of one quiz
 * with its two error messages, and the percentage score the services compute.
 */
module QuizBank {
  import opened Prelude
  import AssessmentRepo

  /** One answer option: its letter id and its text. */
  datatype Choice = Choice(id: string, text: string)

  /** A stored question, including the letter of its correct option. */
  datatype Question = Question(id: string, question: string, options: seq<Choice>, correctAnswer: string)

  datatype Quiz = Quiz(title: string, questions: seq<Question>)

  /** Quizzes by course id, then by quiz id. */
  type Bank = map<string, map<string, Quiz>>

  /** The bank both services are constructed with: one course, one five-question quiz. */
  function DefaultBank(): (b: Bank)
    ensures b.Keys == {"data-structures"} && b["data-structures"].Keys == {"quiz-1"}
    ensures |b["data-structures"]["quiz-1"].questions| == 5
  {
    var questions := [
      Question("q1", "What is the time complexity of accessing an element in an array by index?",
               [Choice("a", "O(1)"), Choice("b", "O(n)"), Choice("c", "O(log n)"), Choice("d", "O(n²)")], "a"),
      Question("q2", "Which data structure follows LIFO (Last In, First Out) principle?",
               [Choice("a", "Queue"), Choice("b", "Stack"), Choice("c", "Array"), Choice("d", "Linked List")], "b"),
      Question("q3", "What is the worst-case time complexity for searching in a binary search tree?",
               [Choice("a", "O(1)"), Choice("b", "O(log n)"), Choice("c", "O(n)"), Choice("d", "O(n log n)")], "c"),
      Question("q4", "Which operation is NOT typically supported by a queue?",
               [Choice("a", "Enqueue"), Choice("b", "Dequeue"), Choice("c", "Peek/Front"), Choice("d", "Pop from middle")], "d"),
      Question("q5", "What is the space complexity of a recursive function that makes n recursive calls?",
               [Choice("a", "O(1)"), Choice("b", "O(log n)"), Choice("c", "O(n)"), Choice("d", "O(n²)")], "c")
    ];
    map["data-structures" := map["quiz-1" := Quiz("Data Structures Fundamentals", questions)]]
  }

  /** The correct letters of the default quiz, in question order. */
  lemma DefaultAnswerKey()
    ensures var qs := DefaultBank()["data-structures"]["quiz-1"].questions;
      qs[0].correctAnswer == "a" && qs[1].correctAnswer == "b" && qs[2].correctAnswer == "c"
      && qs[3].correctAnswer == "d" && qs[4].correctAnswer == "c"
  {
  }

  /** The quiz lookup: an unknown course is reported before an unknown quiz. */
  function LookupQuiz(bank: Bank, courseId: string, quizId: string): (r: Result<Quiz>)
    ensures r.Ok? <==> courseId in bank && quizId in bank[courseId]
    ensures r.Ok? ==> r.value == bank[courseId][quizId]
    ensures courseId !in bank ==> r == Err("Course not found")
    ensures courseId in bank && quizId !in bank[courseId] ==> r == Err("Quiz not found")
  {
    if courseId !in bank then Err("Course not found")
    else if quizId !in bank[courseId] then Err("Quiz not found")
    else Ok(bank[courseId][quizId])
  }

  /**
   * `correct / total * 100`, or 0 when the quiz has no questions; from 0 to 100, and
   * 100 exactly when every question is answered correctly.
   */
  function Percentage(correct: nat, total: nat): (score: real)
    requires correct <= total
    ensures 0.0 <= score <= 100.0
    ensures total > 0 ==> score * total as real == correct as real * 100.0
    ensures score == 100.0 <==> total > 0 && correct == total
  {
    if total > 0 then
      RatioFacts(correct, total);
      correct as real / total as real * 100.0
    else 0.0
  }

  /** The share of correct answers lies between 0 and 1, and is 1 exactly when all are correct. */
  lemma RatioFacts(c: nat, t: nat)
    requires c <= t && t > 0
    ensures var q := c as real / t as real;
      0.0 <= q <= 1.0 && q * t as real == c as real && (q == 1.0 <==> c == t)
  {
    var q, tr := c as real / t as real, t as real;
    assert q * tr == c as real;
  }

  /** More correct answers never lower the score. */
  lemma PercentageMonotone(c1: nat, c2: nat, total: nat)
    requires c1 <= c2 <= total
    ensures Percentage(c1, total) <= Percentage(c2, total)
  {
    if total > 0 {
      var tr := total as real;
      var q1, q2 := c1 as real / tr, c2 as real / tr;
      RatioFacts(c1, total);
      RatioFacts(c2, total);
      CancelFactor(q1, q2, tr);
      assert Percentage(c1, total) == q1 * 100.0 && Percentage(c2, total) == q2 * 100.0;
    }
  }

  /** A positive factor can be cancelled from both sides of an inequality. */
  lemma CancelFactor(a: real, b: real, k: real)
    requires k > 0.0 && a * k <= b * k
    ensures a <= b
  {
    assert (b - a) * k == b * k - a * k;
  }

  /** The number of answers marked correct. */
  function CorrectCount(g: seq<AssessmentRepo.QuizAnswer>): (n: nat)
    ensures n <= |g|
    ensures n == |g| <==> forall a <- g :: a.isCorrect
  {
    if g == [] then 0
    else CorrectCount(g[..|g| - 1]) + (if g[|g| - 1].isCorrect then 1 else 0)
  }

  /** Five answers with only the last one wrong count four. */
  lemma CorrectCountFourOfFive(g: seq<AssessmentRepo.QuizAnswer>)
    requires |g| == 5 && g[0].isCorrect && g[1].isCorrect && g[2].isCorrect && g[3].isCorrect && !g[4].isCorrect
    ensures CorrectCount(g) == 4
  {
    var init := g[..4];
    assert forall a <- init :: a.isCorrect;
  }
}
