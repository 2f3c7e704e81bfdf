/**
 * Evaluation of a coding-challenge submission: every test case of the problem is
 * run through the remote code executor, the passed tests give the test score, the
 * anti-cheat counters give a capped penalty, and the final score is the test score
 * minus the penalty, never below zero.
 */
module CodingEvaluation {
  import opened Prelude
  import opened Text

  datatype TestCase = TestCase(input: string, expected: string)

  datatype Problem = Problem(title: string, tests: seq<TestCase>, expectedTime: string, expectedSpace: string)

  /** The ten factorial test cases, inputs and expected outputs as written in the problem table. */
  const FactorialTests: seq<TestCase> := [
    TestCase("0", "1"), TestCase("1", "1"), TestCase("2", "2"), TestCase("3", "6"),
    TestCase("4", "24"), TestCase("5", "120"), TestCase("10", "3628800"),
    TestCase("12", "479001600"), TestCase("15", "1307674368000"),
    TestCase("20", "2432902008176640000")
  ]

  const Factorial: Problem := Problem(
    "Factorial of a Number", FactorialTests, "O(n)", "O(1) for iterative or O(n) for recursive")

  /** `PROBLEMS.get(problem_id)`: the problem table has the single entry "factorial". */
  function FindProblem(problemId: string): (r: Option<Problem>)
    ensures r.Some? <==> problemId == "factorial"
    ensures r.Some? ==> |r.value.tests| == 10
  {
    if problemId == "factorial" then Some(Factorial) else None
  }

  /** The executor's language name and version for a submission language. */
  datatype LanguageConfig = LanguageConfig(language: string, version: string)

  function LanguageConfigFor(language: string): (r: Option<LanguageConfig>)
    ensures r.Some? <==> language in {"python", "java", "cpp", "c"}
    ensures r.Some? ==> r.value.language == language
  {
    if language == "python" then Some(LanguageConfig("python", "3.10"))
    else if language == "java" then Some(LanguageConfig("java", "15.0"))
    else if language == "cpp" then Some(LanguageConfig("cpp", "10.2"))
    else if language == "c" then Some(LanguageConfig("c", "10.2"))
    else None
  }

  /**
   * What `_execute_code` hands back: the program output (None when the executor's
   * reply carried a null output) and an error message, if any.
   */
  datatype Execution = Execution(output: Option<string>, error: Option<string>)

  /** The remote executor, given the language configuration, the code and the standard input. */
  type Executor = (LanguageConfig, string, string) -> Execution

  /** `_execute_code`: an unsupported language is refused before anything is sent. */
  function ExecuteCode(executor: Executor, code: string, language: string, stdin: string): (e: Execution)
    ensures LanguageConfigFor(language).None? ==> e.output == Some("") && e.error == Some("Unsupported language: " + language)
    ensures LanguageConfigFor(language).Some? ==> e == executor(LanguageConfigFor(language).value, code, stdin)
  {
    match LanguageConfigFor(language)
    case None => Execution(Some(""), Some("Unsupported language: " + language))
    case Some(config) => executor(config, code, stdin)
  }

  /** An unsupported language gives the same answer whatever the executor would have done. */
  lemma UnsupportedLanguageNotExecuted(e1: Executor, e2: Executor, code: string, language: string, stdin: string)
    requires LanguageConfigFor(language).None?
    ensures ExecuteCode(e1, code, language, stdin) == ExecuteCode(e2, code, language, stdin)
  {
  }

  datatype TestResult = TestResult(
    testCase: nat, input: string, expected: string, actual: string, passed: bool, error: Option<string>)

  /** The message of the exception raised by stripping a null output. */
  const NullStripError: string := "'NoneType' object has no attribute 'strip'"

  /**
   * The record for test `i` (0-based): stripped outputs compared for equality; a null
   * output raises while stripping and the exception handler records a failed test
   * with the expected output unstripped.
   */
  function TestResultOf(i: nat, t: TestCase, e: Execution): (r: TestResult)
    ensures r.testCase == i + 1 && r.input == t.input
    ensures r.passed <==> e.output.Some? && Strip(e.output.value) == Strip(t.expected)
  {
    match e.output
    case None => TestResult(i + 1, t.input, t.expected, "", false, Some(NullStripError))
    case Some(out) =>
      var expected := Strip(t.expected);
      var actual := Strip(out);
      TestResult(i + 1, t.input, expected, actual, actual == expected, e.error)
  }

  /** The records of the first `n` test cases, in order. */
  function ResultsUpTo(executor: Executor, code: string, language: string, tests: seq<TestCase>, n: nat): (rs: seq<TestResult>)
    requires n <= |tests|
    ensures |rs| == n
    ensures forall i :: 0 <= i < n ==> rs[i] == TestResultOf(i, tests[i], ExecuteCode(executor, code, language, tests[i].input))
  {
    if n == 0 then [] else
    var e := ExecuteCode(executor, code, language, tests[n - 1].input);
    ResultsUpTo(executor, code, language, tests, n - 1) + [TestResultOf(n - 1, tests[n - 1], e)]
  }

  /** The results `_run_test_cases` produces: one per test case, in order. */
  function TestResults(executor: Executor, code: string, language: string, tests: seq<TestCase>): (rs: seq<TestResult>)
    ensures |rs| == |tests|
    ensures forall i :: 0 <= i < |rs| ==> rs[i].testCase == i + 1 && rs[i].input == tests[i].input
  {
    ResultsUpTo(executor, code, language, tests, |tests|)
  }

  /** `_run_test_cases`: the loop over the test cases, appending one record per case. */
  method RunTestCases(executor: Executor, code: string, language: string, tests: seq<TestCase>)
    returns (results: seq<TestResult>)
    ensures results == TestResults(executor, code, language, tests)
  {
    results := [];
    var i := 0;
    while i < |tests|
      invariant 0 <= i <= |tests|
      invariant results == ResultsUpTo(executor, code, language, tests, i)
    {
      var e := ExecuteCode(executor, code, language, tests[i].input);
      results := results + [TestResultOf(i, tests[i], e)];
      i := i + 1;
    }
  }

  /** A test passes exactly when its stripped output equals its stripped expected output. */
  lemma TestPassedIff(executor: Executor, code: string, language: string, tests: seq<TestCase>, i: nat)
    requires i < |tests|
    ensures TestResults(executor, code, language, tests)[i].passed
        <==> var e := ExecuteCode(executor, code, language, tests[i].input);
             e.output.Some? && Strip(e.output.value) == Strip(tests[i].expected)
  {
  }

  /** A non-empty run of decimal digits. */
  predicate IsNumeral(s: string) {
    s != [] && forall c <- s :: '0' <= c <= '9'
  }

  /** Every expected factorial output is a numeral, so none of them strips to nothing. */
  lemma FactorialExpectedNonBlank()
    ensures forall t <- FactorialTests :: Strip(t.expected) != ""
  {
    forall t <- FactorialTests ensures Strip(t.expected) != "" {
      assert IsNumeral(t.expected);
      StripOfTrimmed(t.expected);
    }
  }

  /**
   * With an unsupported language every test fails, as long as no expected output is
   * blank: the refused execution's output is empty.
   */
  lemma UnsupportedLanguageFailsAll(executor: Executor, code: string, language: string, tests: seq<TestCase>)
    requires LanguageConfigFor(language).None?
    requires forall t <- tests :: Strip(t.expected) != ""
    ensures forall r <- TestResults(executor, code, language, tests) :: !r.passed
  {
    var rs := TestResults(executor, code, language, tests);
    StripEmpty("");
    forall i | 0 <= i < |rs| ensures !rs[i].passed {
      assert tests[i] in tests;
    }
  }

  /** `sum(1 for t in test_results if t['passed'])`. */
  function PassedCount(rs: seq<TestResult>): (n: nat)
    ensures n <= |rs|
    ensures n == |rs| <==> forall r <- rs :: r.passed
    ensures n == 0 <==> forall r <- rs :: !r.passed
  {
    if rs == [] then 0
    else
      var k := PassedCount(rs[..|rs| - 1]);
      assert forall r <- rs :: r in rs[..|rs| - 1] || r == rs[|rs| - 1];
      k + (if rs[|rs| - 1].passed then 1 else 0)
  }

  /**
   * The anti-cheat counters the client sends: absent keys read as 0. Nothing checks
   * their sign, so a counter is any whole number, negative ones included.
   */
  function Counter(data: map<string, int>, key: string): int {
    if key in data then data[key] else 0
  }

  /** Every counter the penalty reads is non-negative, as an honest client reports them. */
  predicate HonestCounters(data: Option<map<string, int>>) {
    data.Some? ==>
      && Counter(data.value, "tab_switches") >= 0
      && Counter(data.value, "copy_attempts") >= 0
      && Counter(data.value, "paste_attempts") >= 0
  }

  /**
   * `_calculate_anti_cheat_penalty`: 2 points per tab switch (at most 20), 5 per copy
   * attempt (at most 30), 10 per paste attempt (at most 40), at most 50 altogether;
   * no data or an empty mapping gives no penalty. Only honest counters keep it from
   * going below zero.
   */
  function Penalty(data: Option<map<string, int>>): (p: int)
    ensures p <= 50
    ensures data.None? || data.value == map[] ==> p == 0
    ensures HonestCounters(data) ==> p >= 0
    ensures data.Some? ==>
      p <= 2 * Counter(data.value, "tab_switches") + 5 * Counter(data.value, "copy_attempts")
           + 10 * Counter(data.value, "paste_attempts")
    ensures HonestCounters(data) && data.Some? && Counter(data.value, "paste_attempts") >= 5 ==> p >= 40
  {
    if data.None? || data.value == map[] then 0
    else
      var d := data.value;
      var total := Min(Counter(d, "tab_switches") * 2, 20) + Min(Counter(d, "copy_attempts") * 5, 30)
        + Min(Counter(d, "paste_attempts") * 10, 40);
      Min(total, 50)
  }

  /**
   * Each kind of violation contributes its own capped share: a counter alone gives 2
   * points per tab switch up to 20, 5 per copy up to 30, 10 per paste up to 40; every
   * share is, with honest counters, a lower bound of the penalty, and all three at
   * their caps give the overall cap of 50.
   */
  lemma PenaltyShares(d: map<string, int>)
    requires d != map[]
    ensures var t, c, v := Counter(d, "tab_switches"), Counter(d, "copy_attempts"), Counter(d, "paste_attempts");
      && (c == 0 && v == 0 ==> Penalty(Some(d)) == Min(2 * t, 20))
      && (t == 0 && v == 0 ==> Penalty(Some(d)) == Min(5 * c, 30))
      && (t == 0 && c == 0 ==> Penalty(Some(d)) == Min(10 * v, 40))
      && (HonestCounters(Some(d)) ==>
            Penalty(Some(d)) >= Min(2 * t, 20) && Penalty(Some(d)) >= Min(5 * c, 30) && Penalty(Some(d)) >= Min(10 * v, 40))
      && (t >= 10 && c >= 6 && v >= 4 ==> Penalty(Some(d)) == 50)
  {
  }

  /**
   * A negative counter is taken as it comes: with the other two at zero, ten paste
   * attempts below zero make a penalty of -100, and the final score rises above the
   * test score by as much.
   */
  lemma NegativeCounterInflatesScore(d: map<string, int>, passed: nat)
    requires Counter(d, "tab_switches") == 0 && Counter(d, "copy_attempts") == 0
    requires Counter(d, "paste_attempts") < 0
    ensures Penalty(Some(d)) == 10 * Counter(d, "paste_attempts") < 0
    ensures FinalScore(passed, Penalty(Some(d))) == 10 * passed - 10 * Counter(d, "paste_attempts") > 10 * passed
  {
  }

  /** More violations never lower the penalty. */
  lemma PenaltyMonotone(d1: map<string, int>, d2: map<string, int>)
    requires d1 != map[] && d2 != map[]
    requires Counter(d1, "tab_switches") <= Counter(d2, "tab_switches")
    requires Counter(d1, "copy_attempts") <= Counter(d2, "copy_attempts")
    requires Counter(d1, "paste_attempts") <= Counter(d2, "paste_attempts")
    ensures Penalty(Some(d1)) <= Penalty(Some(d2))
  {
  }

  /** `final_score = max(0, passed * 5 * 2 - penalty)`. */
  function FinalScore(passed: nat, penalty: int): (s: nat)
    ensures penalty >= 0 ==> s <= 10 * passed
    ensures penalty < 0 ==> s > 10 * passed
    ensures penalty == 0 ==> s == 10 * passed
    ensures s == 0 <==> 10 * passed <= penalty
    ensures penalty <= 10 * passed ==> s + penalty == 10 * passed
  {
    Max(0, passed * 5 * 2 - penalty)
  }

  /** The encouragement bands of `_generate_feedback`. */
  datatype Band = Review | Passing | Good | Excellent {
    function Rank(): nat {
      match this
      case Review => 0
      case Passing => 1
      case Good => 2
      case Excellent => 3
    }
  }

  function BandOf(score: int): (b: Band)
    ensures b == Excellent <==> score >= 90
    ensures b.Rank() >= Passing.Rank() <==> score >= 50
  {
    if score >= 90 then Excellent
    else if score >= 70 then Good
    else if score >= 50 then Passing
    else Review
  }

  /** A higher score never gets a lower band. */
  lemma BandMonotone(a: int, b: int)
    requires a <= b
    ensures BandOf(a).Rank() <= BandOf(b).Rank()
  {
  }

  function BandMessage(b: Band): string {
    match b
    case Excellent => "🌟 Excellent! Perfect or near-perfect solution!"
    case Good => "👍 Good job! Strong performance!"
    case Passing => "📚 Passing! Keep practicing for better scores!"
    case Review => "💪 Review and try again! You can do better!"
  }

  /** The feedback lines, before they are joined with newlines. */
  function FeedbackLines(passed: nat, total: nat, problem: Problem, penalty: int, finalScore: nat): (ls: seq<string>)
    ensures |ls| == if penalty > 0 then 9 else 8
    ensures ls[0] == "Test Cases: " + NatToString(passed) + "/" + NatToString(total) + " passed"
    ensures ls[|ls| - 1] == BandMessage(BandOf(finalScore))
    ensures penalty > 0 ==> StartsWith(ls[6], "\n⚠ Anti-cheat penalty")
  {
    var raw := passed * 5;
    var scaled := raw * 2;
    var head := [
      "Test Cases: " + NatToString(passed) + "/" + NatToString(total) + " passed",
      "Raw Score: " + NatToString(passed) + " × 5 = " + NatToString(raw) + " points (out of 50)",
      "Scaled Score: " + NatToString(raw) + " × 2 = " + NatToString(scaled) + "%",
      "\nExpected Time Complexity: " + problem.expectedTime,
      "Expected Space Complexity: " + problem.expectedSpace,
      "(Reference only - score based on test cases)"
    ];
    var warning := if penalty > 0 then ["\n⚠ Anti-cheat penalty: -" + NatToString(penalty) + "%"] else [];
    var tail := [
      "\nFinal Score: " + NatToString(scaled) + "% - " + IntToString(penalty) + "% = " + NatToString(finalScore) + "%",
      BandMessage(BandOf(finalScore))
    ];
    var ls := head + warning + tail;
    ls
  }

  /** The reference complexity reported with an evaluation; it does not affect the score. */
  datatype Complexity = Complexity(expectedTime: string, expectedSpace: string, note: string)

  datatype Evaluation = Evaluation(
    score: nat, results: seq<TestResult>, testsPassed: string,
    complexity: Complexity, penalty: int, feedback: string)

  /**
   * `evaluate_submission`: an unknown problem is refused before any test runs;
   * otherwise the score is the test score less the penalty, never negative. With
   * honest counters it is at most 100, and 100 exactly when every test passes and
   * there is no penalty.
   */
  function EvaluateSubmission(executor: Executor, code: string, language: string, problemId: string,
                              antiCheat: Option<map<string, int>>): (r: Result<Evaluation>)
    ensures r.Err? <==> FindProblem(problemId).None?
    ensures r.Err? ==> r.error == "Invalid problem ID"
    ensures r.Ok? ==> |r.value.results| == 10
    ensures r.Ok? && HonestCounters(antiCheat) ==> r.value.score <= 100
    ensures r.Ok? ==> r.value.penalty == Penalty(antiCheat) && r.value.score + r.value.penalty >= 10 * PassedCount(r.value.results)
    ensures r.Ok? && HonestCounters(antiCheat) ==>
      (r.value.score == 100 <==> (forall t <- r.value.results :: t.passed) && r.value.penalty == 0)
    ensures r.Ok? ==> r.value.results == TestResults(executor, code, language, FactorialTests)
    ensures r.Ok? ==> r.value.score == FinalScore(PassedCount(r.value.results), r.value.penalty)
  {
    match FindProblem(problemId)
    case None => Err("Invalid problem ID")
    case Some(problem) =>
      var results := TestResults(executor, code, language, problem.tests);
      var passed := PassedCount(results);
      var penalty := Penalty(antiCheat);
      var score := FinalScore(passed, penalty);
      var feedback := Join(FeedbackLines(passed, |results|, problem, penalty, score), "\n");
      var complexity := Complexity(problem.expectedTime, problem.expectedSpace,
                                   "Expected complexity - reference only, not evaluated");
      Ok(Evaluation(score, results, NatToString(passed) + "/" + NatToString(|results|),
                    complexity, penalty, feedback))
  }

  /** An unknown problem gives the same refusal whatever the executor would have done. */
  lemma InvalidProblemRunsNoTests(e1: Executor, e2: Executor, code: string, language: string,
                                  problemId: string, antiCheat: Option<map<string, int>>)
    requires FindProblem(problemId).None?
    ensures EvaluateSubmission(e1, code, language, problemId, antiCheat)
         == EvaluateSubmission(e2, code, language, problemId, antiCheat)
  {
  }

  /**
   * A submission that fails every test still scores the full 100 when the client
   * reports ten paste attempts below zero.
   */
  lemma NegativePastesGiveFullScore(executor: Executor, code: string, language: string)
    requires PassedCount(TestResults(executor, code, language, FactorialTests)) == 0
    ensures var r := EvaluateSubmission(executor, code, language, "factorial", Some(map["paste_attempts" := -10]));
      r.Ok? && r.value.score == 100 && r.value.penalty == -100 && !HonestCounters(Some(map["paste_attempts" := -10]))
  {
    var d := map["paste_attempts" := -10];
    NegativeCounterInflatesScore(d, 0);
  }

  /** What `run_code_only` reports. */
  datatype RunReply = RunFailed(error: string, output: Option<string>) | RunSucceeded(output: Option<string>)

  /**
   * `run_code_only`: only the first test case's input is executed; a non-empty error
   * message makes the run fail.
   */
  function RunCodeOnly(executor: Executor, code: string, language: string, problemId: string): (r: Result<RunReply>)
    ensures r.Err? <==> FindProblem(problemId).None?
    ensures r.Err? ==> r.error == "Invalid problem ID"
    ensures r.Ok? ==> var e := ExecuteCode(executor, code, language, "0");
      (r.value.RunFailed? <==> e.error.Some? && e.error.value != "") && r.value.output == e.output
  {
    match FindProblem(problemId)
    case None => Err("Invalid problem ID")
    case Some(problem) =>
      var e := ExecuteCode(executor, code, language, problem.tests[0].input);
      if e.error.Some? && e.error.value != "" then Ok(RunFailed(e.error.value, e.output))
      else Ok(RunSucceeded(e.output))
  }

  /** Two executors that agree on the first test's input give the same run reply. */
  lemma RunCodeOnlyUsesFirstTest(e1: Executor, e2: Executor, code: string, language: string, problemId: string)
    requires forall config :: e1(config, code, "0") == e2(config, code, "0")
    ensures RunCodeOnly(e1, code, language, problemId) == RunCodeOnly(e2, code, language, problemId)
  {
    if LanguageConfigFor(language).Some? {
      var config := LanguageConfigFor(language).value;
      assert e1(config, code, "0") == e2(config, code, "0");
    }
  }
}
