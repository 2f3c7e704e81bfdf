/**
 * The AI code-analysis report: how the language model's reply is cleaned of
 * Markdown fences, parsed, and completed with default fields, and the fallback
 * report built from the test results when the reply cannot be used.
 *
 * The model call itself is a parameter (`response`: the reply text, or the
 * message of the exception the client raised), and so is the JSON parser
 * (`parse`: the value `json.loads` returns, or `None` when it raises).
 */
module CodeAnalysis {
  import opened Prelude
  import opened Text
  import opened TextExtract

  /** A JSON value as `json.loads` returns it. */
  datatype Json =
    | JNull
    | JBool(b: bool)
    | JInt(i: int)
    | JFloat(f: real)
    | JStr(s: string)
    | JArr(items: seq<Json>)
    | JObj(obj: map<string, Json>)

  /** One entry of `test_results`; a missing `passed` reads as false. */
  datatype TestResult = TestResult(passed: bool, input: Option<string>, actualOutput: Option<string>)

  /** What `analyze_code` returns: the success flag, the error text when it failed, the report. */
  datatype Analysis = Analysis(success: bool, error: Option<string>, report: Json)

  // ---------------------------------------------------------------------------
  // Test-result summary

  /** `sum(1 for t in test_results if t.get('passed', False))`. */
  function PassedCount(tests: seq<TestResult>): (n: nat)
    ensures n <= |tests|
    ensures n == |tests| <==> forall t <- tests :: t.passed
    ensures n == 0 <==> forall t <- tests :: !t.passed
  {
    if tests == [] then 0
    else
      var init := tests[..|tests| - 1];
      var last := tests[|tests| - 1];
      assert forall t <- tests :: t in init || t == last;
      PassedCount(init) + (if last.passed then 1 else 0)
  }

  /** A failed test as it is shown to the model: 1-based number, input, output cut to 100 characters. */
  datatype FailedTestInfo = FailedTestInfo(testNumber: nat, input: string, got: string)

  function Truncate(s: string, n: nat): (r: string)
    ensures |r| <= n && r <= s
    ensures |s| <= n ==> r == s
  {
    s[..Min(n, |s|)]
  }

  function InfoOf(t: TestResult, i: nat): FailedTestInfo {
    FailedTestInfo(i + 1, t.input.GetOr("hidden"), Truncate(t.actualOutput.GetOr("error"), 100))
  }

  /** The failed tests, in order, each with its position. */
  function FailedTests(tests: seq<TestResult>): (fs: seq<FailedTestInfo>)
    ensures |fs| + PassedCount(tests) == |tests|
    ensures forall f <- fs :: 1 <= f.testNumber <= |tests| && !tests[f.testNumber - 1].passed && |f.got| <= 100
  {
    if tests == [] then []
    else
      var init := tests[..|tests| - 1];
      FailedTests(init) + (if tests[|tests| - 1].passed then [] else [InfoOf(tests[|tests| - 1], |tests| - 1)])
  }

  /** Every failed test is listed, under its own number. */
  lemma {:induction false} FailedTestsComplete(tests: seq<TestResult>, i: nat)
    requires i < |tests| && !tests[i].passed
    ensures InfoOf(tests[i], i) in FailedTests(tests)
  {
    var init := tests[..|tests| - 1];
    if i < |tests| - 1 {
      FailedTestsComplete(init, i);
    }
  }

  /** The loop that builds `failed_tests_info`. */
  method CollectFailedTests(tests: seq<TestResult>) returns (info: seq<FailedTestInfo>)
    ensures info == FailedTests(tests)
  {
    info := [];
    var i := 0;
    while i < |tests|
      invariant 0 <= i <= |tests|
      invariant info == FailedTests(tests[..i])
    {
      assert tests[..i + 1][..i] == tests[..i];
      if !tests[i].passed {
        info := info + [InfoOf(tests[i], i)];
      }
      i := i + 1;
    }
    assert tests[..i] == tests;
  }

  /** The failed tests the prompt shows: at most the first three. */
  function PromptFailedTests(tests: seq<TestResult>): (fs: seq<FailedTestInfo>)
    ensures |fs| <= 3 && fs <= FailedTests(tests)
    ensures |FailedTests(tests)| <= 3 ==> fs == FailedTests(tests)
  {
    var all := FailedTests(tests);
    all[..Min(3, |all|)]
  }

  // ---------------------------------------------------------------------------
  // Cleaning the reply

  /** `response_text.split('\n')` splits a joined text into the pieces of each side. */
  lemma CharFreeLenUnique(s: string, c: char, k: nat)
    requires k <= |s| && c !in s[..k] && (k < |s| ==> s[k] == c)
    ensures CharFreeLen(s, c) == k
  {
  }

  lemma {:induction false} SplitOnConcat(x: string, c: char, y: string)
    ensures SplitOn(x + [c] + y, c) == SplitOn(x, c) + SplitOn(y, c)
    decreases |x|
  {
    var s := x + [c] + y;
    var k := CharFreeLen(x, c);
    if k == |x| {
      assert s[..k] == x;
      CharFreeLenUnique(s, c, k);
      assert s[k + 1..] == y;
    } else {
      assert s[..k] == x[..k];
      CharFreeLenUnique(s, c, k);
      assert s[k + 1..] == x[k + 1..] + [c] + y;
      SplitOnConcat(x[k + 1..], c, y);
    }
  }

  lemma SplitOnFree(x: string, c: char)
    requires c !in x
    ensures SplitOn(x, c) == [x]
  {
    assert x[..|x|] == x;
    CharFreeLenUnique(x, c, |x|);
  }

  const Fence := "```"

  /**
   * The fence clean-up: a reply that starts with three backquotes loses its first
   * line, and its last line too when that line is only the closing fence. A reply
   * that is nothing but its opening line has no last line, and Python's `lines[-1]`
   * raises.
   */
  function StripFences(t: string): (r: Result<string>)
    ensures !StartsWith(t, Fence) ==> r == Ok(t)
  {
    if !StartsWith(t, Fence) then Ok(t)
    else
      var lines := SplitOn(t, '\n');
      var afterFirst := if StartsWith(lines[0], Fence) then lines[1..] else lines;
      if afterFirst == [] then Err("list index out of range")
      else
        var kept := if Strip(afterFirst[|afterFirst| - 1]) == Fence then afterFirst[..|afterFirst| - 1] else afterFirst;
        Ok(Join(kept, "\n"))
  }

  /** A fenced reply gives back exactly the text between its fences. */
  lemma {:induction false} FencedReplyRoundTrip(tag: string, body: string)
    requires '\n' !in tag
    ensures StripFences(Fence + tag + "\n" + body + "\n" + Fence) == Ok(body)
  {
    var t := Fence + tag + "\n" + body + "\n" + Fence;
    FencedLines(tag, body);
    assert t[..3] == Fence;
    assert (Fence + tag)[..3] == Fence;
    StripFencesOfLines(t, Fence + tag, SplitOn(body, '\n'));
    JoinSplitOn(body, '\n');
  }

  /** Lines between an opening fence line and a closing fence line come back joined. */
  lemma {:induction false} StripFencesOfLines(t: string, head: string, mid: seq<string>)
    requires StartsWith(t, Fence) && StartsWith(head, Fence)
    requires SplitOn(t, '\n') == [head] + mid + [Fence]
    ensures StripFences(t) == Ok(Join(mid, "\n"))
  {
    var lines := [head] + mid + [Fence];
    assert lines[0] == head;
    var afterFirst := lines[1..];
    assert afterFirst == mid + [Fence];
    ClosingFenceStrips();
    assert afterFirst[..|afterFirst| - 1] == mid;
  }

  /** The closing fence is its own strip. */
  lemma ClosingFenceStrips()
    ensures Strip(Fence) == Fence
  {
    StripOfTrimmed(Fence);
  }

  /** The lines of a fenced reply: the opening line, the body's lines, the closing fence. */
  lemma {:induction false} FencedLines(tag: string, body: string)
    requires '\n' !in tag
    ensures SplitOn(Fence + tag + "\n" + body + "\n" + Fence, '\n')
         == [Fence + tag] + SplitOn(body, '\n') + [Fence]
  {
    var head := Fence + tag;
    var rest := body + ['\n'] + Fence;
    assert Fence + tag + "\n" + body + "\n" + Fence == head + ['\n'] + rest;
    SplitOnConcat(head, '\n', rest);
    SplitOnFree(head, '\n');
    ClosingFenceLine(body);
  }

  /** A body followed by the closing fence line splits into the body's lines and the fence. */
  lemma {:induction false} ClosingFenceLine(body: string)
    ensures SplitOn(body + ['\n'] + Fence, '\n') == SplitOn(body, '\n') + [Fence]
  {
    SplitOnConcat(body, '\n', Fence);
    SplitOnFree(Fence, '\n');
  }

  /** A reply that is a single fenced line raises `IndexError`. */
  lemma OneLineFenceFails(tag: string)
    requires '\n' !in tag
    ensures StripFences(Fence + tag) == Err("list index out of range")
  {
    var t := Fence + tag;
    assert t[..3] == Fence;
    SplitOnFree(t, '\n');
  }

  // ---------------------------------------------------------------------------
  // The regular-expression rescue `\{[\s\S]*\}`

  function IndexOf(s: string, c: char): (r: Option<nat>)
    ensures r.None? <==> c !in s
    ensures r.Some? ==> r.value < |s| && s[r.value] == c && c !in s[..r.value]
  {
    if s == [] then None
    else if s[0] == c then Some(0)
    else
      match IndexOf(s[1..], c)
      case None => None
      case Some(i) =>
        assert s[..i + 1] == [s[0]] + s[1..][..i];
        Some(i + 1)
  }

  function LastIndexOf(s: string, c: char): (r: Option<nat>)
    ensures r.None? <==> c !in s
    ensures r.Some? ==> r.value < |s| && s[r.value] == c && c !in s[r.value + 1..]
  {
    if s == [] then None
    else if s[|s| - 1] == c then Some(|s| - 1)
    else
      var init := s[..|s| - 1];
      match LastIndexOf(init, c)
      case None => None
      case Some(i) =>
        assert s[i + 1..] == init[i + 1..] + [s[|s| - 1]];
        Some(i)
  }

  /**
   * The leftmost, longest match of `\{[\s\S]*\}`: from the first `{` to the last
   * `}`, when that `}` comes after it.
   */
  function ExtractBraces(s: string): (r: Option<string>)
  {
    var oi, oj := IndexOf(s, '{'), LastIndexOf(s, '}');
    if oi.Some? && oj.Some? && oi.value < oj.value then Some(s[oi.value..oj.value + 1]) else None
  }

  /**
   * The match exists exactly when some `{` precedes some `}`; it is then the slice
   * from a `{` to a later `}`, with no `{` before it and no `}` after it in the text.
   */
  lemma ExtractBracesMeaning(s: string)
    ensures ExtractBraces(s).Some? <==> exists i, j :: 0 <= i < j < |s| && s[i] == '{' && s[j] == '}'
    ensures ExtractBraces(s).Some? ==>
      exists i, j :: 0 <= i < j < |s| && ExtractBraces(s).value == s[i..j + 1] &&
        s[i] == '{' && s[j] == '}' && '{' !in s[..i] && '}' !in s[j + 1..]
  {
    var oi, oj := IndexOf(s, '{'), LastIndexOf(s, '}');
    if oi.Some? && oj.Some? && oi.value < oj.value {
      var a, b := oi.value, oj.value;
      BracesFound(s, a, b);
    } else {
      BracesMissing(s);
    }
  }

  /** With a `{` before the last `}`, the match runs from the first `{` to that `}`. */
  lemma BracesFound(s: string, a: nat, b: nat)
    requires IndexOf(s, '{') == Some(a) && LastIndexOf(s, '}') == Some(b) && a < b
    ensures ExtractBraces(s) == Some(s[a..b + 1])
    ensures s == s[..a] + s[a..b + 1] + s[b + 1..]
    ensures '{' !in s[..a] && '}' !in s[b + 1..] && s[a] == '{' && s[b] == '}'
  {
    Around(s, a, b);
  }

  /** A text is what comes before a slice, the slice, and what comes after it. */
  lemma Around(s: string, a: nat, b: nat)
    requires a <= b < |s|
    ensures s == s[..a] + s[a..b + 1] + s[b + 1..]
  {
    assert s == s[..a] + s[a..b + 1] + s[b + 1..];
  }

  /** Without a `{` before the last `}`, no `{` precedes any `}`. */
  lemma BracesMissing(s: string)
    requires !(IndexOf(s, '{').Some? && LastIndexOf(s, '}').Some? && IndexOf(s, '{').value < LastIndexOf(s, '}').value)
    ensures ExtractBraces(s).None?
    ensures forall i, j :: 0 <= i < j < |s| && s[i] == '{' ==> s[j] != '}'
  {
    forall i, j | 0 <= i < j < |s| && s[i] == '{' && s[j] == '}'
      ensures false
    {
      FirstAtOrBefore(s, '{', i);
      LastAtOrAfter(s, '}', j);
    }
  }

  /** The first occurrence of `c` comes no later than any occurrence. */
  lemma FirstAtOrBefore(s: string, c: char, i: int)
    requires 0 <= i < |s| && s[i] == c
    ensures IndexOf(s, c).Some? && IndexOf(s, c).value <= i
  {
    assert c in s;
  }

  /** The last occurrence of `c` comes no earlier than any occurrence. */
  lemma LastAtOrAfter(s: string, c: char, j: int)
    requires 0 <= j < |s| && s[j] == c
    ensures LastIndexOf(s, c).Some? && LastIndexOf(s, c).value >= j
  {
    assert c in s;
  }

  // ---------------------------------------------------------------------------
  // Backfilling the required fields

  /** The fields every report must have, in the order they are checked. */
  const RequiredFields: seq<string> := ["overall_rating", "code_quality", "time_complexity", "improvements"]

  /** The names `_get_default_field` has a default for. */
  const DefaultFieldNames: set<string> := {
    "overall_rating", "summary", "code_quality", "time_complexity", "space_complexity",
    "improvements", "best_practices", "security_concerns", "learning_tips", "encouraging_message" }

  function Strs(ss: seq<string>): (j: Json)
    ensures j.JArr? && |j.items| == |ss|
  {
    JArr(seq(|ss|, i requires 0 <= i < |ss| => JStr(ss[i])))
  }

  /** `_get_default_field`: the default value of a report field, `None` for any other name. */
  function DefaultField(field: string): (j: Json)
    ensures field !in DefaultFieldNames <==> j == JNull
  {
    match field
    case "overall_rating" => JStr("C")
    case "summary" => JStr("Code analysis completed.")
    case "code_quality" => JObj(map[
        "score" := JInt(50), "strengths" := Strs(["Code submitted successfully"]), "issues" := Strs([]),
        "readability" := JStr("Fair"), "maintainability" := JStr("Fair")])
    case "time_complexity" => JObj(map[
        "detected" := JStr("Unknown"), "optimal" := JStr("Unknown"),
        "explanation" := JStr("Could not determine complexity"), "is_optimal" := JBool(false)])
    case "space_complexity" => JObj(map[
        "detected" := JStr("Unknown"), "explanation" := JStr("Could not determine space complexity")])
    case "improvements" => Strs([])
    case "best_practices" => JObj(map["followed" := Strs([]), "missing" := Strs([])])
    case "security_concerns" => Strs([])
    case "learning_tips" => Strs(["Keep practicing!", "Review the fundamentals"])
    case "encouraging_message" => JStr("Keep up the good work! Every submission is a step forward.")
    case _ => JNull
  }

  function TypeName(j: Json): string {
    match j
    case JNull => "NoneType"
    case JBool(_) => "bool"
    case JInt(_) => "int"
    case JFloat(_) => "float"
    case JStr(_) => "str"
    case JArr(_) => "list"
    case JObj(_) => "dict"
  }

  /** Python's `field in report`: a key of a dict, a substring of a str, an element of a list. */
  function Member(field: string, j: Json): (r: Result<bool>)
    ensures r.Err? <==> !(j.JObj? || j.JStr? || j.JArr?)
  {
    match j
    case JObj(m) => Ok(field in m)
    case JStr(s) => Ok(Contains(s, field))
    case JArr(items) => Ok(JStr(field) in items)
    case _ => Err("argument of type '" + TypeName(j) + "' is not iterable")
  }

  /** The error `report[field] = ...` raises on a value that is not a dict. */
  function AssignError(j: Json): string {
    if j.JStr? then "'str' object does not support item assignment"
    else "list indices must be integers or slices, not str"
  }

  /** An object with the defaults of the given fields added where they are missing. */
  function FilledWith(m: map<string, Json>, fields: seq<string>): (f: map<string, Json>)
    ensures f.Keys == m.Keys + FieldSet(fields)
    ensures forall k <- m.Keys :: f[k] == m[k]
    ensures forall k <- f.Keys :: k !in m ==> f[k] == DefaultField(k)
  {
    map k | k in m.Keys + FieldSet(fields) :: if k in m then m[k] else DefaultField(k)
  }

  function FieldSet(fields: seq<string>): set<string> {
    set f <- fields
  }

  /** Whether every required field is already present. */
  predicate AllPresent(j: Json) {
    forall f <- RequiredFields :: Member(f, j) == Ok(true)
  }

  /**
   * The result of the backfill loop: an object gains the defaults of its missing
   * required fields; a string or list passes only when every field is already in
   * it; any other value raises at the first membership test.
   */
  function Backfilled(j: Json): (r: Result<Json>)
    ensures j.JObj? ==> r.Ok?
    ensures r.Ok? && !j.JObj? ==> r.value == j
  {
    match j
    case JObj(m) => Ok(JObj(FilledWith(m, RequiredFields)))
    case JStr(_) => if AllPresent(j) then Ok(j) else Err(AssignError(j))
    case JArr(_) => if AllPresent(j) then Ok(j) else Err(AssignError(j))
    case _ => Err(Member(RequiredFields[0], j).error)
  }

  /** Every successful backfill leaves all required fields in the report. */
  lemma BackfillComplete(j: Json)
    requires Backfilled(j).Ok?
    ensures AllPresent(Backfilled(j).value)
  {
    if j.JObj? {
      assert forall f <- RequiredFields :: f in FieldSet(RequiredFields);
    }
  }

  /** Fields that were present keep their value; only missing required fields are added. */
  lemma BackfillKeeps(m: map<string, Json>)
    ensures var f := Backfilled(JObj(m)).value.obj;
      (forall k <- m.Keys :: k in f && f[k] == m[k])
      && (forall k <- f.Keys :: k in m || (k in RequiredFields && f[k] == DefaultField(k)))
  {
  }

  /** One more field: its default is added exactly when it is still missing. */
  lemma FilledWithStep(m: map<string, Json>, fields: seq<string>, f: string)
    ensures var cur := FilledWith(m, fields);
      FilledWith(m, fields + [f]) == if f in cur then cur else cur[f := DefaultField(f)]
  {
    assert FieldSet(fields + [f]) == FieldSet(fields) + {f};
  }

  /** The first `n` required fields are all in `j`. */
  predicate PresentBefore(j: Json, n: nat)
    requires n <= |RequiredFields|
  {
    forall k :: 0 <= k < n ==> Member(RequiredFields[k], j) == Ok(true)
  }

  /** What the backfill loop keeps after `i` fields: defaults added to an object, anything else untouched and so far complete. */
  predicate BackfillInv(j: Json, report: Json, i: nat)
    requires i <= |RequiredFields|
  {
    (j.JObj? ==> report.JObj? && report.obj == FilledWith(j.obj, RequiredFields[..i]))
    && (!j.JObj? ==> report == j && PresentBefore(j, i) && (i > 0 ==> j.JStr? || j.JArr?))
  }

  /** One field of the backfill loop: it either keeps the invariant or raises the error `Backfilled` reports. */
  lemma BackfillStep(j: Json, report: Json, i: nat)
    requires i < |RequiredFields| && BackfillInv(j, report, i)
    ensures var f := RequiredFields[i];
      && (Member(f, report).Err? ==> Backfilled(j) == Err(Member(f, report).error))
      && (Member(f, report) == Ok(true) ==> BackfillInv(j, report, i + 1))
      && (Member(f, report) == Ok(false) && !report.JObj? ==> Backfilled(j) == Err(AssignError(report)))
      && (Member(f, report) == Ok(false) && report.JObj? ==> BackfillInv(j, JObj(report.obj[f := DefaultField(f)]), i + 1))
  {
    var f := RequiredFields[i];
    assert RequiredFields[..i + 1] == RequiredFields[..i] + [f];
    if j.JObj? {
      FilledWithStep(j.obj, RequiredFields[..i], f);
    }
  }

  /** After every field, the report is the backfilled one. */
  lemma BackfillDone(j: Json, report: Json)
    requires BackfillInv(j, report, |RequiredFields|)
    ensures Backfilled(j) == Ok(report)
  {
    assert RequiredFields[..|RequiredFields|] == RequiredFields;
  }

  /** The `for field in required_fields` loop of `analyze_code`. */
  method BackfillFields(j: Json) returns (r: Result<Json>)
    ensures r == Backfilled(j)
  {
    var report := j;
    var i := 0;
    while i < |RequiredFields|
      invariant 0 <= i <= |RequiredFields|
      invariant BackfillInv(j, report, i)
    {
      var field := RequiredFields[i];
      BackfillStep(j, report, i);
      var present := Member(field, report);
      if present.Err? {
        return Err(present.error);
      }
      if !present.value {
        if !report.JObj? {
          return Err(AssignError(report));
        }
        report := JObj(report.obj[field := DefaultField(field)]);
      }
      i := i + 1;
    }
    BackfillDone(j, report);
    return Ok(report);
  }

  // ---------------------------------------------------------------------------
  // The fallback report

  /** The letter grade from the score: A from 90, B from 75, C from 60, D from 40, else F. */
  function Rating(score: real): (g: string)
    ensures g == "A" <==> score >= 90.0
    ensures g == "B" <==> 75.0 <= score < 90.0
    ensures g == "C" <==> 60.0 <= score < 75.0
    ensures g == "D" <==> 40.0 <= score < 60.0
    ensures g == "F" <==> score < 40.0
  {
    if score >= 90.0 then "A"
    else if score >= 75.0 then "B"
    else if score >= 60.0 then "C"
    else if score >= 40.0 then "D"
    else "F"
  }

  /** A higher score never gets a worse letter. */
  lemma RatingMonotone(a: real, b: real)
    requires a <= b
    ensures Rating(a) == "A" ==> Rating(b) == "A"
    ensures Rating(b) == "F" ==> Rating(a) == "F"
  {
  }

  /**
   * `min(score, 100)`: Python keeps the first argument unless the second is strictly
   * smaller, so a score up to 100 stays the float and a larger one becomes the int 100.
   */
  function QualityScore(score: real): (j: Json)
    ensures score <= 100.0 ==> j == JFloat(score)
    ensures score > 100.0 ==> j == JInt(100)
  {
    if 100.0 < score then JInt(100) else JFloat(score)
  }

  /** The `code_quality` block of the fallback report. */
  function FallbackCodeQuality(score: real, passed: nat, total: nat): (j: Json)
    ensures j.JObj? && j.obj.Keys == {"score", "strengths", "issues", "readability", "maintainability"}
    ensures j.obj["strengths"].JArr? && (j.obj["strengths"].items != [] <==> passed > 0)
    ensures j.obj["issues"].JArr? && (j.obj["issues"].items != [] <==> passed < total)
    ensures j.obj["score"] == QualityScore(score)
  {
    JObj(map[
      "score" := QualityScore(score),
      "strengths" := Strs(if passed > 0 then ["Code executed successfully"] else []),
      "issues" := Strs(if passed < total then ["Some test cases failed"] else []),
      "readability" := JStr("Fair"),
      "maintainability" := JStr("Fair")])
  }

  /** The single improvement of the fallback report; it is urgent exactly when a test failed. */
  function FallbackImprovement(passed: nat, total: nat): (j: Json)
    ensures j.JObj? && "priority" in j.obj
    ensures j.obj["priority"] == JStr("High") <==> passed < total
    ensures j.obj["priority"] == JStr("Low") <==> passed >= total
  {
    JObj(map[
      "title" := JStr("Review Failed Test Cases"),
      "description" := JStr("Analyze the edge cases where your code failed"),
      "priority" := JStr(if passed < total then "High" else "Low"),
      "code_suggestion" := JNull])
  }

  /** The report keys of the fallback report. */
  const FallbackKeys: set<string> := {
    "overall_rating", "summary", "code_quality", "time_complexity", "space_complexity",
    "improvements", "best_practices", "security_concerns", "learning_tips", "encouraging_message" }

  /**
   * `_get_fallback_report`. `scoreText` is Python's rendering of the score in the
   * summary sentence.
   */
  function FallbackReport(language: string, score: real, scoreText: string, tests: seq<TestResult>): (j: Json)
    ensures j.JObj? && FallbackKeys <= j.obj.Keys
    ensures j.obj["overall_rating"] == JStr(Rating(score))
    ensures j.obj["code_quality"] == FallbackCodeQuality(score, PassedCount(tests), |tests|)
    ensures j.obj["improvements"] == JArr([FallbackImprovement(PassedCount(tests), |tests|)])
  {
    var passed := PassedCount(tests);
    var total := |tests|;
    JObj(map[
      "overall_rating" := JStr(Rating(score)),
      "summary" := JStr(FallbackSummary(passed, total, scoreText)),
      "code_quality" := FallbackCodeQuality(score, passed, total),
      "time_complexity" := FallbackTimeComplexity,
      "space_complexity" := FallbackSpaceComplexity,
      "improvements" := JArr([FallbackImprovement(passed, total)]),
      "best_practices" := FallbackBestPractices,
      "security_concerns" := JArr([]),
      "learning_tips" := FallbackTips(language),
      "encouraging_message" := JStr(FallbackMessage)])
  }

  /** The summary sentence: how many tests passed, out of how many, and the score. */
  function FallbackSummary(passed: nat, total: nat, scoreText: string): string {
    "Passed " + NatToString(passed) + "/" + NatToString(total) + " test cases with " + scoreText + "% score."
  }

  const FallbackTimeComplexity: Json := JObj(map[
    "detected" := JStr("Not analyzed"), "optimal" := JStr("Varies by approach"),
    "explanation" := JStr("AI analysis unavailable - manual review recommended"),
    "is_optimal" := JBool(false)])

  const FallbackSpaceComplexity: Json := JObj(map[
    "detected" := JStr("Not analyzed"), "explanation" := JStr("AI analysis unavailable")])

  const FallbackBestPractices: Json :=
    JObj(map["followed" := JArr([]), "missing" := JArr([JStr("Unable to analyze automatically")])])

  const FallbackMessage := "Keep practicing! Every attempt helps you improve. \U{1F680}"

  function FallbackTips(language: string): Json {
    Strs(["Test your code with edge cases", "Consider time and space complexity",
          "Practice more " + language + " problems"])
  }

  /** The fallback report has every required field too. */
  lemma FallbackHasRequired(language: string, score: real, scoreText: string, tests: seq<TestResult>)
    ensures AllPresent(FallbackReport(language, score, scoreText, tests))
  {
  }

  // ---------------------------------------------------------------------------
  // analyze_code

  /** The parsed report, or `None` when both `json.loads` attempts raise. */
  function ParseReport(text: string, parse: string -> Option<Json>): Option<Json> {
    match parse(text)
    case Some(j) => Some(j)
    case None =>
      match ExtractBraces(text)
      case Some(sub) => parse(sub)
      case None => None
  }

  /**
   * `analyze_code`: a failed call, an unusable fenced reply or a failed backfill
   * reports the exception text with the fallback report; a reply that does not
   * parse reports 'Failed to parse AI response' with the fallback report; otherwise
   * the backfilled report is returned as a success.
   */
  function Analyzed(response: Result<string>, parse: string -> Option<Json>,
                    language: string, score: real, scoreText: string, tests: seq<TestResult>): (a: Analysis)
    ensures !a.success ==> a.report == FallbackReport(language, score, scoreText, tests) && a.error.Some?
    ensures a.success <==> a.error.None?
  {
    var fallback := FallbackReport(language, score, scoreText, tests);
    match response
    case Err(e) => Analysis(false, Some(e), fallback)
    case Ok(text) =>
      match StripFences(Strip(text))
      case Err(e) => Analysis(false, Some(e), fallback)
      case Ok(cleaned) =>
        match ParseReport(cleaned, parse)
        case None => Analysis(false, Some("Failed to parse AI response"), fallback)
        case Some(j) =>
          match Backfilled(j)
          case Err(e) => Analysis(false, Some(e), fallback)
          case Ok(report) =>
            Analysis(true, None, report)
  }

  /** Whatever happens, the report returned holds every required field. */
  lemma AnalysisHasRequired(response: Result<string>, parse: string -> Option<Json>,
                            language: string, score: real, scoreText: string, tests: seq<TestResult>)
    ensures AllPresent(Analyzed(response, parse, language, score, scoreText, tests).report)
  {
    var a := Analyzed(response, parse, language, score, scoreText, tests);
    if a.success {
      var j := ParseReport(StripFences(Strip(response.value)).value, parse).value;
      BackfillComplete(j);
    } else {
      FallbackHasRequired(language, score, scoreText, tests);
    }
  }

  /** A fenced reply holding a JSON object is parsed from the text between the fences. */
  lemma FencedObjectSucceeds(tag: string, body: string, m: map<string, Json>, parse: string -> Option<Json>,
                             language: string, score: real, scoreText: string, tests: seq<TestResult>)
    requires '\n' !in tag
    requires parse(body) == Some(JObj(m))
    ensures Analyzed(Ok(Fence + tag + "\n" + body + "\n" + Fence), parse, language, score, scoreText, tests)
      == Analysis(true, None, JObj(FilledWith(m, RequiredFields)))
  {
    FencedReplyCleaned(tag, body);
    assert Backfilled(JObj(m)) == Ok(JObj(FilledWith(m, RequiredFields)));
    AnalyzedOfParsed(Fence + tag + "\n" + body + "\n" + Fence, body, JObj(m), parse, language, score, scoreText, tests);
  }

  /** A fenced reply has no surrounding whitespace, so its cleaning gives the text between the fences. */
  lemma FencedReplyCleaned(tag: string, body: string)
    requires '\n' !in tag
    ensures StripFences(Strip(Fence + tag + "\n" + body + "\n" + Fence)) == Ok(body)
  {
    var t := Fence + tag + "\n" + body + "\n" + Fence;
    assert t[0] == '`' && t[|t| - 1] == '`';
    StripOfTrimmed(t);
    FencedReplyRoundTrip(tag, body);
  }

  /** A reply whose cleaned text parses is judged on the parsed value alone. */
  lemma AnalyzedOfParsed(text: string, cleaned: string, j: Json, parse: string -> Option<Json>,
                         language: string, score: real, scoreText: string, tests: seq<TestResult>)
    requires StripFences(Strip(text)) == Ok(cleaned) && ParseReport(cleaned, parse) == Some(j)
    requires Backfilled(j).Ok?
    ensures Analyzed(Ok(text), parse, language, score, scoreText, tests) == Analysis(true, None, Backfilled(j).value)
  {
  }

  /** The `analyze_code` method, whose backfill is the loop above. */
  method AnalyzeCode(response: Result<string>, parse: string -> Option<Json>,
                     language: string, score: real, scoreText: string, tests: seq<TestResult>)
    returns (a: Analysis)
    ensures a == Analyzed(response, parse, language, score, scoreText, tests)
    ensures AllPresent(a.report)
  {
    AnalysisHasRequired(response, parse, language, score, scoreText, tests);
    var fallback := FallbackReport(language, score, scoreText, tests);
    if response.Err? {
      return Analysis(false, Some(response.error), fallback);
    }
    var cleaned := StripFences(Strip(response.value));
    if cleaned.Err? {
      return Analysis(false, Some(cleaned.error), fallback);
    }
    var parsed := ParseReport(cleaned.value, parse);
    if parsed.None? {
      return Analysis(false, Some("Failed to parse AI response"), fallback);
    }
    var report := BackfillFields(parsed.value);
    if report.Err? {
      return Analysis(false, Some(report.error), fallback);
    }
    return Analysis(true, None, report.value);
  }
}
