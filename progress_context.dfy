/**
 * The frontend's progress context: a cache of each course's loaded progress and of
 * local completion marks, the getters the pages read, and the module-completion
 * update. The progress service call is a parameter (`fetched`, `None` when it
 * failed); the sync back to it is returned as the call that would be made.
 */
module ProgressContext {
  import opened Prelude
  import opened CourseConfig

  const CodingChallenge := "coding-challenge"

  /** The progress document the progress service returns. */
  datatype StoredProgress = StoredProgress(
    modulesCompleted: Option<seq<string>>,
    codingCompleted: bool,
    quizBest: Option<real>,
    codingBest: Option<real>,
    completionPercentage: Option<real>)

  /** One course's progress as the context caches it. */
  datatype CourseProgress = CourseProgress(
    modules: seq<string>,
    quizScore: Option<real>,
    codingScore: Option<real>,
    codingCompleted: bool,
    completionPercentage: real)

  /** A local completion mark. */
  datatype LocalMark = LocalMark(completed: bool, completedAt: string)

  /** What `getQuizScore` returns. */
  datatype QuizScore = QuizScore(score: real, passed: bool)

  /** A call to the progress service's `syncCourseProgress`. */
  datatype SyncCall = SyncCall(userId: string, courseId: string, learningModules: seq<string>, completionPercentage: real)

  /** The progress used when the user is not signed in yet or loading failed. */
  const EmptyProgress := CourseProgress([], None, None, false, 0.0)

  /** `x || null` on a number: zero counts as absent. */
  function Truthy(x: Option<real>): (r: Option<real>)
    ensures r.Some? <==> x.Some? && x.value != 0.0
    ensures r.Some? ==> r == x
  {
    if x.Some? && x.value != 0.0 then x else None
  }

  /** The module list of a loaded document, with the coding challenge added once when coding is completed. */
  function LoadedModules(stored: StoredProgress): seq<string> {
    var modules := stored.modulesCompleted.GetOr([]);
    if stored.codingCompleted && CodingChallenge !in modules then modules + [CodingChallenge] else modules
  }

  /**
   * The loaded list extends the stored one; it holds the coding challenge exactly when
   * the stored list did or coding is completed, never once more than needed, and no
   * other module changes.
   */
  lemma LoadedModulesCoding(stored: StoredProgress)
    ensures var modules := stored.modulesCompleted.GetOr([]);
      var loaded := LoadedModules(stored);
      && loaded[..|modules|] == modules
      && (CodingChallenge in loaded <==> CodingChallenge in modules || stored.codingCompleted)
      && multiset(loaded)[CodingChallenge]
         == (if CodingChallenge in modules then multiset(modules)[CodingChallenge]
             else if stored.codingCompleted then 1 else 0)
      && forall m :: m != CodingChallenge ==> multiset(loaded)[m] == multiset(modules)[m]
  {
  }

  /** The progress `loadProgressFromFirebase` builds from a loaded document. */
  function Loaded(stored: StoredProgress): (p: CourseProgress)
    ensures p.modules == LoadedModules(stored)
    ensures p.quizScore == Truthy(stored.quizBest) && p.codingScore == Truthy(stored.codingBest)
    ensures p.codingCompleted == stored.codingCompleted
    ensures p.completionPercentage == stored.completionPercentage.GetOr(0.0)
  {
    CourseProgress(LoadedModules(stored), Truthy(stored.quizBest), Truthy(stored.codingBest),
                   stored.codingCompleted, stored.completionPercentage.GetOr(0.0))
  }

  /** Whether the load reaches the service and succeeds. */
  predicate LoadSucceeds(userId: Option<string>, fetched: Option<StoredProgress>) {
    userId.Some? && fetched.Some?
  }

  /** The progress a load returns: the loaded one, or the empty one when the user or the service is missing. */
  function LoadResult(userId: Option<string>, fetched: Option<StoredProgress>): (p: CourseProgress)
    ensures !LoadSucceeds(userId, fetched) ==> p.modules == [] && p.completionPercentage == 0.0
  {
    if LoadSucceeds(userId, fetched) then Loaded(fetched.value) else EmptyProgress
  }

  /** The `${courseId}_${moduleId}` key of a local mark. */
  function ProgressKey(courseId: string, moduleId: string): string {
    courseId + "_" + moduleId
  }

  /** The modules that are not certification modules, as `syncToFirebase` sends them. */
  function LearningOnly(courseId: string, modules: seq<string>): (r: seq<string>)
    ensures forall m :: m in r <==> m in modules && !IsModuleExcluded(courseId, m)
    ensures |r| <= |modules|
  {
    if modules == [] then []
    else
      var rest := LearningOnly(courseId, modules[1..]);
      assert forall m :: m in modules <==> m == modules[0] || m in modules[1..];
      if IsModuleExcluded(courseId, modules[0]) then rest else [modules[0]] + rest
  }

  /**
   * The progress after `moduleId` is pushed: the percentage is recomputed only when
   * the module counts towards completion.
   */
  function Marked(courseId: string, current: CourseProgress, moduleId: string): (p: CourseProgress)
    ensures p.modules == current.modules + [moduleId]
    ensures IsModuleExcluded(courseId, moduleId) ==> p.completionPercentage == current.completionPercentage
    ensures !IsModuleExcluded(courseId, moduleId) ==>
      p.completionPercentage == CalculateProgressPercentage(courseId, p.modules) as real
    ensures p.quizScore == current.quizScore && p.codingScore == current.codingScore
    ensures p.codingCompleted == current.codingCompleted
  {
    var modules := current.modules + [moduleId];
    var pct := if IsModuleExcluded(courseId, moduleId) then current.completionPercentage
               else CalculateProgressPercentage(courseId, modules) as real;
    current.(modules := modules, completionPercentage := pct)
  }

  /** Marking keeps the module list free of repeats, and a learning-module mark keeps the percentage within [0, 100]. */
  lemma MarkedDistinct(current: CourseProgress, moduleId: string)
    requires Distinct(current.modules) && moduleId !in current.modules
    ensures Distinct(Marked(DataStructuresId, current, moduleId).modules)
    ensures !IsModuleExcluded(DataStructuresId, moduleId) ==>
      0.0 <= Marked(DataStructuresId, current, moduleId).completionPercentage <= 100.0
  {
    var p := Marked(DataStructuresId, current, moduleId);
    assert Distinct(p.modules);
    ProgressBounded(p.modules);
  }

  /** `Math.round(0.7·learning + 0.3·exam)`, the exam part being 50 per passed quiz and 50 per completed coding challenge. */
  function Overall(progress: CourseProgress): (r: int)
    ensures 0.0 <= progress.completionPercentage <= 100.0 ==> 0 <= r <= 100
  {
    var exam := (if progress.quizScore.GetOr(0.0) >= 85.0 then 50.0 else 0.0)
              + (if CodingChallenge in progress.modules then 50.0 else 0.0);
    Round(progress.completionPercentage * 0.7 + exam * 0.3)
  }

  /**
   * For a whole-number learning percentage in [0, 100] the overall percentage is 100
   * exactly when learning is complete, the quiz is passed and the coding challenge is done.
   */
  lemma OverallFull(progress: CourseProgress)
    requires 0.0 <= progress.completionPercentage <= 100.0
    requires progress.completionPercentage == progress.completionPercentage.Floor as real
    ensures Overall(progress) == 100 <==>
      progress.completionPercentage == 100.0 && progress.quizScore.GetOr(0.0) >= 85.0
      && CodingChallenge in progress.modules
  {
    var l := progress.completionPercentage;
    var exam := (if progress.quizScore.GetOr(0.0) >= 85.0 then 50.0 else 0.0)
              + (if CodingChallenge in progress.modules then 50.0 else 0.0);
    if l < 100.0 {
      assert l <= 99.0;
      RoundMonotone(l * 0.7 + exam * 0.3, 99.3);
      assert Round(99.3) == 99;
    } else if exam < 100.0 {
      RoundMonotone(l * 0.7 + exam * 0.3, 85.0);
    }
  }

  /** Local marks for every module of `modules`, each completed at `now`, over `marks`. */
  function MarkAll(marks: map<string, LocalMark>, courseId: string, modules: seq<string>, now: string)
    : (r: map<string, LocalMark>)
    ensures r.Keys == marks.Keys + set m <- modules :: ProgressKey(courseId, m)
    ensures forall m <- modules :: r[ProgressKey(courseId, m)] == LocalMark(true, now)
    ensures forall k <- marks :: k !in (set m <- modules :: ProgressKey(courseId, m)) ==> r[k] == marks[k]
  {
    if modules == [] then marks
    else MarkAll(marks, courseId, modules[..|modules| - 1], now)[ProgressKey(courseId, modules[|modules| - 1]) := LocalMark(true, now)]
  }

  /** The provider's state: local completion marks and the cached progress of each course. */
  class ProgressProvider {
    var moduleProgress: map<string, LocalMark>
    var courseProgress: map<string, CourseProgress>

    constructor()
      ensures moduleProgress == map[] && courseProgress == map[]
    {
      moduleProgress := map[];
      courseProgress := map[];
    }

    /** `loadProgressFromFirebase`: a successful load caches and returns the loaded progress. */
    method LoadProgressFromFirebase(courseId: string, userId: Option<string>, fetched: Option<StoredProgress>)
      returns (p: CourseProgress)
      modifies this
      ensures p == LoadResult(userId, fetched)
      ensures moduleProgress == old(moduleProgress)
      ensures LoadSucceeds(userId, fetched) ==> courseProgress == old(courseProgress)[courseId := p]
      ensures !LoadSucceeds(userId, fetched) ==> courseProgress == old(courseProgress)
    {
      if userId.None? || fetched.None? {
        return EmptyProgress;
      }
      var stored := fetched.value;
      var modules := stored.modulesCompleted.GetOr([]);
      if stored.codingCompleted && CodingChallenge !in modules {
        modules := modules + [CodingChallenge];
      }
      p := CourseProgress(modules, Truthy(stored.quizBest), Truthy(stored.codingBest), stored.codingCompleted,
                          stored.completionPercentage.GetOr(0.0));
      courseProgress := courseProgress[courseId := p];
    }

    /**
     * `markModuleComplete`: mark the module locally, load the course, and when the
     * module is new push it, recompute the percentage for a learning module, cache the
     * result and sync its non-certification modules. Afterwards the module reads as completed.
     */
    method MarkModuleComplete(courseId: string, moduleId: string, now: string, userId: Option<string>,
                              fetched: Option<StoredProgress>)
      returns (sync: Option<SyncCall>)
      modifies this
      ensures moduleProgress == old(moduleProgress)[ProgressKey(courseId, moduleId) := LocalMark(true, now)]
      ensures var current := LoadResult(userId, fetched);
        moduleId !in current.modules ==>
          courseProgress == old(courseProgress)[courseId := Marked(courseId, current, moduleId)]
          && sync == (if userId.Some?
                      then Some(SyncCall(userId.value, courseId, LearningOnly(courseId, current.modules + [moduleId]),
                                         Marked(courseId, current, moduleId).completionPercentage))
                      else None)
      ensures var current := LoadResult(userId, fetched);
        moduleId in current.modules ==>
          courseProgress == old(courseProgress)[courseId := current] && sync.None?
      ensures IsModuleCompleted(courseId, moduleId)
      ensures courseId in courseProgress && moduleId in courseProgress[courseId].modules
      ensures Distinct(LoadResult(userId, fetched).modules) ==> Distinct(courseProgress[courseId].modules)
    {
      moduleProgress := moduleProgress[ProgressKey(courseId, moduleId) := LocalMark(true, now)];
      var current := LoadProgressFromFirebase(courseId, userId, fetched);
      sync := None;
      if moduleId !in current.modules {
        current := Marked(courseId, current, moduleId);
        courseProgress := courseProgress[courseId := current];
        if userId.Some? {
          sync := Some(SyncCall(userId.value, courseId, LearningOnly(courseId, current.modules),
                                current.completionPercentage));
        }
      }
    }

    /**
     * `saveQuizScore`: load the course, set its quiz score, cache it and sync it. The
     * sync sends the modules and the percentage only, so the score stays in the cache.
     */
    method SaveQuizScore(courseId: string, score: real, userId: Option<string>, fetched: Option<StoredProgress>)
      returns (sync: Option<SyncCall>)
      modifies this
      ensures var current := LoadResult(userId, fetched);
        courseProgress == old(courseProgress)[courseId := current.(quizScore := Some(score))]
        && sync == (if userId.Some?
                    then Some(SyncCall(userId.value, courseId, LearningOnly(courseId, current.modules),
                                       current.completionPercentage))
                    else None)
      ensures moduleProgress == old(moduleProgress)
      ensures score != 0.0 ==> GetQuizScore(courseId) == Some(QuizScore(score, score >= 85.0))
    {
      var current := LoadProgressFromFirebase(courseId, userId, fetched);
      current := current.(quizScore := Some(score));
      courseProgress := courseProgress[courseId := current];
      sync := None;
      if userId.Some? {
        sync := Some(SyncCall(userId.value, courseId, LearningOnly(courseId, current.modules),
                              current.completionPercentage));
      }
    }

    /**
     * `initializeCourseProgress`: cache the loaded progress (the empty one when loading
     * failed) and mark each of its modules completed locally.
     */
    method InitializeCourseProgress(courseId: string, now: string, userId: Option<string>,
                                    fetched: Option<StoredProgress>)
      modifies this
      ensures courseProgress == old(courseProgress)[courseId := LoadResult(userId, fetched)]
      ensures moduleProgress == MarkAll(old(moduleProgress), courseId, LoadResult(userId, fetched).modules, now)
      ensures forall m <- LoadResult(userId, fetched).modules :: IsModuleCompleted(courseId, m)
    {
      var progress := LoadProgressFromFirebase(courseId, userId, fetched);
      courseProgress := courseProgress[courseId := progress];
      var modules := progress.modules;
      for i := 0 to |modules|
        invariant moduleProgress == MarkAll(old(moduleProgress), courseId, modules[..i], now)
        invariant courseProgress == old(courseProgress)[courseId := progress]
      {
        assert modules[..i + 1][..i] == modules[..i];
        moduleProgress := moduleProgress[ProgressKey(courseId, modules[i]) := LocalMark(true, now)];
      }
      assert modules[..|modules|] == modules;
    }

    /** `isModuleCompleted`: marked locally or present in the loaded module list. */
    function IsModuleCompleted(courseId: string, moduleId: string): (b: bool)
      reads this
      ensures courseId in courseProgress && moduleId in courseProgress[courseId].modules ==> b
      ensures ProgressKey(courseId, moduleId) !in moduleProgress ==>
        (b <==> courseId in courseProgress && moduleId in courseProgress[courseId].modules)
    {
      var key := ProgressKey(courseId, moduleId);
      (key in moduleProgress && moduleProgress[key].completed)
      || (courseId in courseProgress && moduleId in courseProgress[courseId].modules)
    }

    /** `getCourseCompletionPercentage`: the overall percentage, 0 for a course not loaded. */
    function GetCourseCompletionPercentage(courseId: string): (r: int)
      reads this
      ensures courseId !in courseProgress ==> r == 0
      ensures courseId in courseProgress && 0.0 <= courseProgress[courseId].completionPercentage <= 100.0 ==>
        0 <= r <= 100
    {
      if courseId !in courseProgress then 0 else Overall(courseProgress[courseId])
    }

    /** `getQuizScore`: a non-zero quiz score with whether it passes 85, or null. */
    function GetQuizScore(courseId: string): (r: Option<QuizScore>)
      reads this
      ensures r.Some? <==> courseId in courseProgress && Truthy(courseProgress[courseId].quizScore).Some?
      ensures r.Some? ==> r.value.score == courseProgress[courseId].quizScore.value
      ensures r.Some? ==> (r.value.passed <==> r.value.score >= 85.0)
    {
      if courseId in courseProgress && courseProgress[courseId].quizScore.Some?
         && courseProgress[courseId].quizScore.value != 0.0
      then
        var score := courseProgress[courseId].quizScore.value;
        Some(QuizScore(score, score >= 85.0))
      else None
    }

    /** `getFinalExamScore`: the mean of the quiz score and 100 for a completed coding challenge, rounded. */
    function GetFinalExamScore(courseId: string): (r: int)
      reads this
      ensures var q := if GetQuizScore(courseId).Some? then GetQuizScore(courseId).value.score else 0.0;
        0.0 <= q <= 100.0 ==> 0 <= r <= 100
      ensures var q := if GetQuizScore(courseId).Some? then GetQuizScore(courseId).value.score else 0.0;
        0.0 <= q <= 100.0 ==> (r == 100 <==> q >= 99.0 && IsModuleCompleted(courseId, CodingChallenge))
    {
      var quiz := GetQuizScore(courseId);
      var q := if quiz.Some? then quiz.value.score else 0.0;
      var coding := if IsModuleCompleted(courseId, CodingChallenge) then 100.0 else 0.0;
      Round((q + coding) / 2.0)
    }

    /** `isFinalExamComplete`: the quiz is passed and the coding challenge is completed. */
    function IsFinalExamComplete(courseId: string): (b: bool)
      reads this
      ensures b <==> courseId in courseProgress && courseProgress[courseId].quizScore.GetOr(0.0) >= 85.0
                     && IsModuleCompleted(courseId, CodingChallenge)
    {
      var quiz := GetQuizScore(courseId);
      (quiz.Some? && quiz.value.passed) && IsModuleCompleted(courseId, CodingChallenge)
    }

    /** `canGetCertification`: learning is exactly 100% and the final exam is complete. */
    function CanGetCertification(courseId: string): (b: bool)
      reads this
      ensures b <==> courseId in courseProgress && courseProgress[courseId].completionPercentage == 100.0
                     && courseProgress[courseId].quizScore.GetOr(0.0) >= 85.0
                     && IsModuleCompleted(courseId, CodingChallenge)
      ensures b ==> IsFinalExamComplete(courseId)
    {
      courseId in courseProgress && courseProgress[courseId].completionPercentage == 100.0
      && IsFinalExamComplete(courseId)
    }

    /**
     * Without a local mark for the coding challenge, a learner who can get the
     * certificate also reads 100% overall.
     */
    lemma CertificationMeansFullOverall(courseId: string)
      requires CanGetCertification(courseId)
      requires ProgressKey(courseId, CodingChallenge) !in moduleProgress
      ensures GetCourseCompletionPercentage(courseId) == 100
    {
      var p := courseProgress[courseId];
      assert p.completionPercentage == p.completionPercentage.Floor as real;
      OverallFull(p);
    }
  }
}
