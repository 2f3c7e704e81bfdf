/**
 * The frontend's course configuration: which modules count towards completion,
 * how the final exam's components are weighted, and what unlocks certification.
 * Scores are reals; `Math.round` is JavaScript's round-half-up.
 */
module CourseConfig {
  import opened Prelude
  import opened Text

  /** One graded component of a final exam. */
  datatype Component = Component(id: string, name: string, weight: real, passingScore: real, required: bool)

  datatype FinalExam = FinalExam(enabled: bool, components: seq<Component>, passingScore: real,
                                 unlocksCertification: bool)

  /** What a learner must reach before a certificate can be issued. */
  datatype Requirements = Requirements(completionPercentage: real, finalExamPassed: bool, minimumFinalScore: real)

  datatype Config = Config(
    id: string,
    name: string,
    learningModules: seq<string>,
    excludedModules: seq<string>,
    totalLearningModules: nat,
    finalExam: FinalExam,
    certification: Option<Requirements>)

  const DataStructuresId := "data-structures"

  const LearningModules: seq<string> := ["overview", "arrays-1d", "arrays-2d", "stacks", "queues", "trees-intro"]

  const DataStructures := Config(
    DataStructuresId,
    "Data Structures",
    LearningModules,
    ["quiz", "coding-challenge", "certifications", "final-exam", "trees-tbd"],
    6,
    FinalExam(true,
              [Component("quiz", "Quiz", 0.5, 85.0, true),
               Component("coding-challenge", "Coding Challenge", 0.5, 70.0, true)],
              77.5,
              true),
    Some(Requirements(100.0, true, 77.5)))

  /** `Math.round`: the nearest integer, halves rounded up. */
  function Round(x: real): (r: int)
    ensures r as real - 0.5 <= x < r as real + 0.5
  {
    (x + 0.5).Floor
  }

  /** Rounding is monotone. */
  lemma RoundMonotone(x: real, y: real)
    requires x <= y
    ensures Round(x) <= Round(y)
  {
  }

  /**
   * `courseConfigs[courseId] || null` for a course id that names no member the object
   * inherits: only the data-structures course is configured. Inherited names such as
   * "constructor" are not modelled (see the README).
   */
  function GetCourseConfig(courseId: string): (c: Option<Config>)
    ensures c.Some? <==> courseId == DataStructuresId
    ensures c.Some? ==> c.value.id == courseId && c.value.totalLearningModules == |c.value.learningModules|
  {
    if courseId == DataStructuresId then Some(DataStructures) else None
  }

  /** Whether a module is left out of the completion percentage. */
  function IsModuleExcluded(courseId: string, moduleId: string): (b: bool)
    ensures GetCourseConfig(courseId).None? ==> !b
  {
    match GetCourseConfig(courseId)
    case None => false
    case Some(config) =>
      moduleId in config.excludedModules
      || Contains(moduleId, "certification")
      || Contains(moduleId, "certificate")
      || Contains(moduleId, "nft")
  }

  /**
   * In the configured course, every listed excluded module and every id mentioning
   * certification, certificates or NFTs is excluded, and no learning module is.
   */
  lemma ExcludedModules(moduleId: string)
    ensures moduleId in DataStructures.excludedModules ==> IsModuleExcluded(DataStructuresId, moduleId)
    ensures Contains(moduleId, "nft") || Contains(moduleId, "certificate") || Contains(moduleId, "certification") ==>
      IsModuleExcluded(DataStructuresId, moduleId)
    ensures moduleId in LearningModules ==> !IsModuleExcluded(DataStructuresId, moduleId)
  {
    if moduleId in LearningModules {
      NoCertificateWords(moduleId);
      assert moduleId !in DataStructures.excludedModules by {
        LearningNotListedExcluded(moduleId);
      }
    }
  }

  /** The two module lists of the configured course are disjoint. */
  lemma LearningNotListedExcluded(moduleId: string)
    requires moduleId in LearningModules
    ensures moduleId !in DataStructures.excludedModules
  {
    assert forall m <- LearningModules :: |m| != 4 || m[0] != 'q';
  }

  /** A string containing `sub` contains every character of `sub`. */
  lemma ContainsChar(s: string, sub: string, c: char)
    requires Contains(s, sub) && c in sub
    ensures c in s
  {
    ContainsAt(s, sub);
    var i :| OccursAt(s, sub, i);
    var k :| 0 <= k < |sub| && sub[k] == c;
    assert s[i..i + |sub|][k] == s[i + k];
  }

  /** None of the learning module ids mentions a certificate or an NFT: none holds an 'f'. */
  lemma NoCertificateWords(moduleId: string)
    requires moduleId in LearningModules
    ensures !Contains(moduleId, "certification") && !Contains(moduleId, "certificate") && !Contains(moduleId, "nft")
  {
    assert 'f' !in moduleId;
    if Contains(moduleId, "certification") {
      ContainsChar(moduleId, "certification", 'f');
    }
    if Contains(moduleId, "certificate") {
      ContainsChar(moduleId, "certificate", 'f');
    }
    if Contains(moduleId, "nft") {
      ContainsChar(moduleId, "nft", 'f');
    }
  }

  /** `config?.progress.totalLearningModules || 1`. */
  function GetTotalLearningModules(courseId: string): (n: nat)
    ensures n >= 1
    ensures GetCourseConfig(courseId).None? ==> n == 1
    ensures GetCourseConfig(courseId).Some? ==> n == |LearningModules|
  {
    match GetCourseConfig(courseId)
    case None => 1
    case Some(config) => Max(config.totalLearningModules, 1)
  }

  /** `s.filter(m => keep.includes(m))`: the entries of `s` found in `keep`, repeats included. */
  function Filter(s: seq<string>, keep: seq<string>): (r: seq<string>)
    ensures |r| <= |s|
    ensures forall m :: m in r <==> m in s && m in keep
  {
    if s == [] then []
    else
      var rest := Filter(s[1..], keep);
      assert forall m :: m in s <==> m == s[0] || m in s[1..];
      if s[0] in keep then [s[0]] + rest else rest
  }

  /** No id appears twice. */
  ghost predicate Distinct(s: seq<string>) {
    forall i, j :: 0 <= i < j < |s| ==> s[i] != s[j]
  }

  /** `Math.round(|completed ∩ learning| / total * 100)`, or 0 for an unknown course. */
  function CalculateProgressPercentage(courseId: string, completed: seq<string>): (p: int)
    ensures GetCourseConfig(courseId).None? ==> p == 0
    ensures GetCourseConfig(courseId).Some? ==>
      p == Round(|Filter(completed, LearningModules)| as real * 100.0 / |LearningModules| as real)
  {
    match GetCourseConfig(courseId)
    case None => 0
    case Some(config) =>
      var done := Filter(completed, config.learningModules);
      Round(|done| as real / config.totalLearningModules as real * 100.0)
  }

  /** A filtered list without repeats has no repeats. */
  lemma {:induction false} FilterDistinct(s: seq<string>, keep: seq<string>)
    requires Distinct(s)
    ensures Distinct(Filter(s, keep))
  {
    if s != [] {
      FilterDistinct(s[1..], keep);
      assert s[0] !in s[1..];
    }
  }

  /** A list without repeats is as long as the set of its entries is large. */
  lemma {:induction false} DistinctCard(s: seq<string>)
    requires Distinct(s)
    ensures |set m | m in s| == |s|
  {
    if s != [] {
      DistinctCard(s[1..]);
      assert (set m | m in s) == {s[0]} + (set m | m in s[1..]);
      assert s[0] !in s[1..];
    }
  }

  /** A list without repeats whose entries all lie in `keep` is no longer than `keep`'s entries. */
  lemma DistinctWithin(r: seq<string>, keep: seq<string>)
    requires Distinct(r) && Distinct(keep)
    requires forall m :: m in r ==> m in keep
    ensures |r| <= |keep|
    ensures |r| == |keep| <==> forall m :: m in keep ==> m in r
  {
    var R := set m | m in r;
    var K := set m | m in keep;
    DistinctCard(r);
    DistinctCard(keep);
    assert R <= K;
    assert |K| == |R| + |K - R|;
    if |r| == |keep| {
      assert |K - R| == 0;
      assert K - R == {};
      forall m | m in keep ensures m in r {
        assert m in K;
      }
    }
    if forall m :: m in keep ==> m in r {
      assert K == R;
    }
  }

  /** The six learning module ids are all different. */
  lemma LearningModulesDistinct()
    ensures Distinct(LearningModules)
  {
  }

  /**
   * With no repeated ids the percentage lies in [0, 100], and it is 100 exactly when
   * every learning module has been completed.
   */
  lemma ProgressBounded(completed: seq<string>)
    requires Distinct(completed)
    ensures 0 <= CalculateProgressPercentage(DataStructuresId, completed) <= 100
    ensures CalculateProgressPercentage(DataStructuresId, completed) == 100 <==>
      forall m :: m in LearningModules ==> m in completed
  {
    var done := Filter(completed, LearningModules);
    FilterDistinct(completed, LearningModules);
    LearningModulesDistinct();
    DistinctWithin(done, LearningModules);
    var k := |done|;
    assert k <= 6;
    var p := CalculateProgressPercentage(DataStructuresId, completed);
    assert p == Round(k as real * 100.0 / 6.0);
    if k == 6 {
      assert p == 100;
    } else {
      assert k as real * 100.0 / 6.0 <= 500.0 / 6.0;
      RoundMonotone(k as real * 100.0 / 6.0, 500.0 / 6.0);
      assert Round(500.0 / 6.0) == 83;
    }
  }

  /** Repeats are counted again: completing "overview" seven times reads as 117%. */
  lemma RepeatsCountAgain()
    ensures CalculateProgressPercentage(DataStructuresId, seq(7, _ => "overview")) == 117
  {
    var s := seq(7, _ => "overview");
    assert Filter(s, LearningModules) == s by {
      FilterAll(s, LearningModules);
    }
    assert Round(7.0 * 100.0 / 6.0) == 117;
  }

  /** Filtering by a list that holds every entry keeps everything. */
  lemma {:induction false} FilterAll(s: seq<string>, keep: seq<string>)
    requires forall m :: m in s ==> m in keep
    ensures Filter(s, keep) == s
  {
    if s != [] {
      FilterAll(s[1..], keep);
      assert s == [s[0]] + s[1..];
    }
  }

  /** `examScores[id] || 0`. */
  function ScoreOf(scores: map<string, real>, id: string): real {
    if id in scores then scores[id] else 0.0
  }

  /** The weighted sum `Σ score(c) · weight(c)` over the components, in order. */
  function WeightedTotal(components: seq<Component>, scores: map<string, real>): real {
    if components == [] then 0.0
    else
      var last := components[|components| - 1];
      WeightedTotal(components[..|components| - 1], scores) + ScoreOf(scores, last.id) * last.weight
  }

  /** The final exam score: the rounded weighted sum, or 0 when the course has no enabled exam. */
  function FinalExamScore(courseId: string, scores: map<string, real>): (r: int)
    ensures GetCourseConfig(courseId).None? ==> r == 0
    ensures GetCourseConfig(courseId).Some? && GetCourseConfig(courseId).value.finalExam.enabled ==>
      var w := WeightedTotal(GetCourseConfig(courseId).value.finalExam.components, scores);
      r as real - 0.5 <= w < r as real + 0.5
  {
    match GetCourseConfig(courseId)
    case None => 0
    case Some(config) =>
      if !config.finalExam.enabled then 0 else Round(WeightedTotal(config.finalExam.components, scores))
  }

  /** `calculateFinalExamScore`: the `forEach` accumulation of each component's weighted score. */
  method CalculateFinalExamScore(courseId: string, scores: map<string, real>) returns (r: int)
    ensures r == FinalExamScore(courseId, scores)
  {
    var config := GetCourseConfig(courseId);
    if config.None? || !config.value.finalExam.enabled {
      return 0;
    }
    var components := config.value.finalExam.components;
    var total := 0.0;
    for i := 0 to |components|
      invariant total == WeightedTotal(components[..i], scores)
    {
      var score := if components[i].id in scores then scores[components[i].id] else 0.0;
      total := total + score * components[i].weight;
      assert components[..i + 1][..i] == components[..i];
    }
    assert components[..|components|] == components;
    r := Round(total);
  }

  /** In the configured course the exam score is the rounded mean of the quiz and coding scores. */
  lemma ExamScoreIsMean(scores: map<string, real>)
    ensures FinalExamScore(DataStructuresId, scores)
         == Round((ScoreOf(scores, "quiz") + ScoreOf(scores, "coding-challenge")) / 2.0)
  {
    var cs := DataStructures.finalExam.components;
    var q, c := ScoreOf(scores, "quiz"), ScoreOf(scores, "coding-challenge");
    assert cs[..1][..0] == [];
    assert WeightedTotal(cs[..1], scores) == q * 0.5;
    assert cs[..|cs| - 1] == cs[..1];
    assert WeightedTotal(cs, scores) == q * 0.5 + c * 0.5 == (q + c) / 2.0;
  }

  /** With both scores in [0, 100], so is the exam score. */
  lemma ExamScoreBounded(scores: map<string, real>)
    requires 0.0 <= ScoreOf(scores, "quiz") <= 100.0 && 0.0 <= ScoreOf(scores, "coding-challenge") <= 100.0
    ensures 0 <= FinalExamScore(DataStructuresId, scores) <= 100
  {
    ExamScoreIsMean(scores);
    var x := (ScoreOf(scores, "quiz") + ScoreOf(scores, "coding-challenge")) / 2.0;
    RoundMonotone(0.0, x);
    RoundMonotone(x, 100.0);
  }

  /** `every` required component reaches its own passing score. */
  predicate AllRequiredPass(components: seq<Component>, scores: map<string, real>) {
    forall c <- components :: c.required ==> ScoreOf(scores, c.id) >= c.passingScore
  }

  /**
   * In the configured course the required components pass exactly when the quiz
   * reaches 85 and the coding challenge 70, and those two already give an exam score of
   * at least 78, above the 77.5 pass mark.
   */
  lemma ConfiguredExamFacts(scores: map<string, real>)
    ensures AllRequiredPass(DataStructures.finalExam.components, scores)
        <==> ScoreOf(scores, "quiz") >= 85.0 && ScoreOf(scores, "coding-challenge") >= 70.0
    ensures ScoreOf(scores, "quiz") >= 85.0 && ScoreOf(scores, "coding-challenge") >= 70.0 ==>
      FinalExamScore(DataStructuresId, scores) >= 78
  {
    var q, c := ScoreOf(scores, "quiz"), ScoreOf(scores, "coding-challenge");
    var cs := DataStructures.finalExam.components;
    assert AllRequiredPass(cs, scores) <==> q >= 85.0 && c >= 70.0 by {
      assert cs[0] in cs && cs[1] in cs;
      assert forall x <- cs :: x == cs[0] || x == cs[1];
    }
    ExamScoreIsMean(scores);
    if q >= 85.0 && c >= 70.0 {
      RoundMonotone(77.5, (q + c) / 2.0);
      assert Round(77.5) == 78;
    }
  }

  /**
   * `isFinalExamPassed`: every required component passes and the exam score meets the
   * pass mark. In the configured course that is exactly a quiz of 85 and a coding score
   * of 70: the 77.5 mark on the weighted score adds nothing.
   */
  function IsFinalExamPassed(courseId: string, scores: map<string, real>): (b: bool)
    ensures GetCourseConfig(courseId).None? ==> !b
    ensures courseId == DataStructuresId ==>
      (b <==> ScoreOf(scores, "quiz") >= 85.0 && ScoreOf(scores, "coding-challenge") >= 70.0)
  {
    ConfiguredExamFacts(scores);
    match GetCourseConfig(courseId)
    case None => false
    case Some(config) =>
      config.finalExam.enabled
      && AllRequiredPass(config.finalExam.components, scores)
      && FinalExamScore(courseId, scores) as real >= config.finalExam.passingScore
  }

  /** An unknown course has no exam to pass. */
  lemma UnknownCourseNothing(courseId: string, completed: seq<string>, moduleId: string, scores: map<string, real>)
    requires courseId != DataStructuresId
    ensures !IsModuleExcluded(courseId, moduleId)
    ensures CalculateProgressPercentage(courseId, completed) == 0
    ensures GetTotalLearningModules(courseId) == 1
    ensures FinalExamScore(courseId, scores) == 0 && !IsFinalExamPassed(courseId, scores)
  {
  }

  /** What the certification check reads from a learner's progress. */
  datatype ProgressData = ProgressData(completionPercentage: real, quizScore: Option<real>, codingScore: Option<real>)

  /** `{quiz: quizScore || 0, 'coding-challenge': codingScore || 0}`. */
  function ExamScores(progress: ProgressData): (m: map<string, real>)
    ensures ScoreOf(m, "quiz") == progress.quizScore.GetOr(0.0)
    ensures ScoreOf(m, "coding-challenge") == progress.codingScore.GetOr(0.0)
  {
    map["quiz" := progress.quizScore.GetOr(0.0), "coding-challenge" := progress.codingScore.GetOr(0.0)]
  }

  /**
   * `canUnlockCertification`: enough completion, then (when demanded) a passed exam
   * with a high enough score. In the configured course that is exactly full completion,
   * a quiz score of at least 85 and a coding score of at least 70 (a missing score
   * counts as 0); an unknown course never unlocks a certificate.
   */
  function CanUnlockCertification(courseId: string, progress: ProgressData): (b: bool)
    ensures GetCourseConfig(courseId).None? ==> !b
    ensures courseId == DataStructuresId ==>
      (b <==> progress.completionPercentage >= 100.0
              && progress.quizScore.GetOr(0.0) >= 85.0 && progress.codingScore.GetOr(0.0) >= 70.0)
  {
    ConfiguredExamFacts(ExamScores(progress));
    match GetCourseConfig(courseId)
    case None => false
    case Some(config) =>
      match config.certification
      case None => false
      case Some(req) =>
        var scores := ExamScores(progress);
        progress.completionPercentage >= req.completionPercentage
        && (req.finalExamPassed ==>
              IsFinalExamPassed(courseId, scores)
              && FinalExamScore(courseId, scores) as real >= req.minimumFinalScore)
  }
}
