/**
 * The `course_progress` collection: one document per (user, course) holding the
 * completed modules, the learning percentage and the quiz and coding records, and
 * the certification eligibility computed from it. The simplified progress service
 * reads and writes the same documents. Scores are exact rationals; the clock is a
 * parameter.
 */
module ProgressRepo {
  import opened Prelude

  datatype QuizProgress = QuizProgress(bestScore: real, lastScore: real, attempts: nat, lastAttempt: int, passed: bool)

  datatype CodingProgress = CodingProgress(
    completed: bool, bestScore: real, lastScore: real,
    problemId: string, language: string, code: string, lastSubmission: int)

  /** A number field of a stored document: absent, null, or a number. */
  datatype Field = Missing | Null | Number(value: real)

  /** The value an optional number is stored as: Python's None is stored as null. */
  function FieldOf(x: Option<real>): (f: Field)
    ensures f.Number? <==> x.Some?
    ensures f.Number? ==> f.value == x.value
    ensures f != Missing
  {
    if x.Some? then Number(x.value) else Null
  }

  /** The `coding_challenge` map of a progress document; only its `score` is ever read. */
  datatype CodingRecord = CodingRecord(score: Option<real>)

  /**
   * A progress document, with every field either service writes or reads; a field
   * the document does not have is None (or Missing).
   */
  datatype ProgressDoc = ProgressDoc(
    userId: Option<string>, courseId: Option<string>,
    modulesCompleted: Option<seq<string>>, completionPercentage: Field, quizScore: Field,
    lastUpdated: Option<int>, quiz: Option<QuizProgress>, coding: Option<CodingProgress>,
    codingChallenge: Option<CodingRecord>, createdAt: Option<int>, updatedAt: Option<int>)

  const EmptyDoc: ProgressDoc := ProgressDoc(None, None, None, Missing, Missing, None, None, None, None, None, None)

  /** `progress.get('completion_percentage', 0)`: an absent (or null) percentage reads as 0. */
  function LearningOf(d: ProgressDoc): real {
    if d.completionPercentage.Number? then d.completionPercentage.value else 0.0
  }

  /** The progress document id `f"{user_id}_{course_id}"`. */
  function DocId(userId: string, courseId: string): (id: string)
    ensures |id| == |userId| + 1 + |courseId|
    ensures id[..|userId|] == userId && id[|userId|] == '_' && id[|userId| + 1..] == courseId
  {
    userId + "_" + courseId
  }

  /** For one user, different courses have different progress documents. */
  lemma DocIdPerCourse(userId: string, c1: string, c2: string)
    requires DocId(userId, c1) == DocId(userId, c2)
    ensures c1 == c2
  {
    assert c1 == DocId(userId, c1)[|userId| + 1..];
  }

  /** `BaseRepository.set(..., merge=True)` stamps `updated_at` and, since the written data never carries it, `created_at`. */
  function Stamp(d: ProgressDoc, now: int): ProgressDoc {
    d.(updatedAt := Some(now), createdAt := Some(now))
  }

  /** The document `sync_progress` leaves: ids, modules and percentage replaced, quiz and coding records kept. */
  function Synced(prev: ProgressDoc, userId: string, courseId: string, modules: seq<string>, completion: real, now: int)
    : (d: ProgressDoc)
    ensures d.quiz == prev.quiz && d.coding == prev.coding
    ensures d.modulesCompleted == Some(modules) && d.completionPercentage == Number(completion)
    ensures d.userId == Some(userId) && d.courseId == Some(courseId)
  {
    Stamp(prev.(userId := Some(userId), courseId := Some(courseId), modulesCompleted := Some(modules),
                completionPercentage := Number(completion), lastUpdated := Some(now)), now)
  }

  /** `quiz_data.get('best_score', 0)`. */
  function PrevQuizBest(prev: Option<QuizProgress>): real {
    if prev.Some? then prev.value.bestScore else 0.0
  }

  /**
   * The quiz record after an attempt: the best score is the larger of the old best
   * (0 when there was none) and this score, attempts go up by one, and a quiz once
   * passed stays passed.
   */
  function QuizAfter(prev: Option<QuizProgress>, score: real, passed: bool, now: int): (q: QuizProgress)
    ensures q.bestScore >= score && q.bestScore >= PrevQuizBest(prev)
    ensures q.bestScore == score || q.bestScore == PrevQuizBest(prev)
    ensures q.lastScore == score && q.lastAttempt == now
    ensures q.attempts == (if prev.Some? then prev.value.attempts else 0) + 1
    ensures q.passed <==> passed || (prev.Some? && prev.value.passed)
  {
    var attempts := if prev.Some? then prev.value.attempts else 0;
    var wasPassed := prev.Some? && prev.value.passed;
    QuizProgress(RealMax(PrevQuizBest(prev), score), score, attempts + 1, now, passed || wasPassed)
  }

  function RealMax(a: real, b: real): real { if a >= b then a else b }

  /** `coding_data.get('best_score', 0)`. */
  function PrevCodingBest(prev: Option<CodingProgress>): real {
    if prev.Some? then prev.value.bestScore else 0.0
  }

  /**
   * The coding record after a submission: completion is sticky, the best score is
   * the larger of the old best and this score, and the other fields describe this
   * submission.
   */
  function CodingAfter(prev: Option<CodingProgress>, score: real, problemId: string, language: string,
                       code: string, passed: bool, now: int): (c: CodingProgress)
    ensures c.completed <==> passed || (prev.Some? && prev.value.completed)
    ensures c.bestScore >= score && c.bestScore >= PrevCodingBest(prev)
    ensures c.bestScore == score || c.bestScore == PrevCodingBest(prev)
    ensures c.lastScore == score && c.problemId == problemId && c.language == language && c.code == code
    ensures c.lastSubmission == now
  {
    var wasCompleted := prev.Some? && prev.value.completed;
    CodingProgress(passed || wasCompleted, RealMax(PrevCodingBest(prev), score), score, problemId, language, code, now)
  }

  /** The module id the coding challenge adds to the completed modules. */
  const CodingChallenge: string := "coding-challenge"

  /**
   * The module list written with a passed coding submission: None (the field is not
   * written) when the submission failed or the module is already listed, otherwise
   * the old list (empty when absent) with the coding challenge appended.
   */
  function ModulesAfterCoding(prev: Option<seq<string>>, passed: bool): (m: Option<seq<string>>)
    ensures m.Some? <==> passed && CodingChallenge !in prev.GetOr([])
    ensures m.Some? ==> m.value == prev.GetOr([]) + [CodingChallenge]
  {
    var modules := prev.GetOr([]);
    if passed && CodingChallenge !in modules then Some(modules + [CodingChallenge]) else None
  }

  /** The document `update_coding_progress` leaves. */
  function CodingUpdated(prev: ProgressDoc, score: real, problemId: string, language: string,
                         code: string, passed: bool, now: int): (d: ProgressDoc)
    ensures d.quiz == prev.quiz && d.completionPercentage == prev.completionPercentage
    ensures d.coding == Some(CodingAfter(prev.coding, score, problemId, language, code, passed, now))
  {
    var withCoding := prev.(coding := Some(CodingAfter(prev.coding, score, problemId, language, code, passed, now)));
    var modules := ModulesAfterCoding(prev.modulesCompleted, passed);
    Stamp(if modules.Some? then withCoding.(modulesCompleted := modules) else withCoding, now)
  }

  /** How many times `x` occurs in `s`. */
  function Occurrences(s: seq<string>, x: string): nat {
    if s == [] then 0 else Occurrences(s[..|s| - 1], x) + (if s[|s| - 1] == x then 1 else 0)
  }

  lemma {:induction false} OccurrencesZero(s: seq<string>, x: string)
    ensures Occurrences(s, x) == 0 <==> x !in s
  {
    if s != [] {
      OccurrencesZero(s[..|s| - 1], x);
      assert forall y <- s :: y in s[..|s| - 1] || y == s[|s| - 1];
    }
  }

  /**
   * The coding challenge is never listed twice: after a coding update it occurs at
   * most once if it did before, and exactly once after a passed submission.
   */
  lemma CodingChallengeAtMostOnce(prev: ProgressDoc, score: real, problemId: string, language: string,
                                  code: string, passed: bool, now: int)
    requires Occurrences(prev.modulesCompleted.GetOr([]), CodingChallenge) <= 1
    ensures var d := CodingUpdated(prev, score, problemId, language, code, passed, now);
      Occurrences(d.modulesCompleted.GetOr([]), CodingChallenge) <= 1
      && (passed ==> Occurrences(d.modulesCompleted.GetOr([]), CodingChallenge) == 1)
  {
    var before := prev.modulesCompleted.GetOr([]);
    OccurrencesZero(before, CodingChallenge);
    var m := ModulesAfterCoding(prev.modulesCompleted, passed);
    if m.Some? {
      assert (before + [CodingChallenge])[..|before|] == before;
    }
  }

  /** The fields of the eligibility answer. */
  datatype Eligibility =
    | NoProgress
    | Assessed(eligible: bool, learningProgress: real, quizScore: real, quizPassed: bool,
               codingScore: real, codingCompleted: bool, finalExamScore: real, overallCompletion: real)
  {
    predicate IsEligible() { Assessed? && eligible }
  }

  /** Python falsiness of a progress document: missing, or present with no fields. */
  predicate Falsy(doc: Option<ProgressDoc>) {
    doc.None? || doc.value == EmptyDoc
  }

  /**
   * `get_certification_eligibility`: the exam score is 50 for a passed quiz plus 50
   * for a completed coding challenge; overall is 70% learning plus 30% exam; eligible
   * iff overall is at least 90 with both the quiz passed and the coding completed.
   */
  function CertificationEligibility(doc: Option<ProgressDoc>): (e: Eligibility)
    ensures Falsy(doc) <==> e.NoProgress?
    ensures e.Assessed? ==> e.learningProgress == LearningOf(doc.value)
    ensures e.Assessed? ==> e.quizPassed == (doc.value.quiz.Some? && doc.value.quiz.value.passed)
    ensures e.Assessed? ==> e.codingCompleted == (doc.value.coding.Some? && doc.value.coding.value.completed)
    ensures e.Assessed? ==> e.quizScore == (if doc.value.quiz.Some? then doc.value.quiz.value.bestScore else 0.0)
    ensures e.Assessed? ==> e.codingScore == (if doc.value.coding.Some? then doc.value.coding.value.bestScore else 0.0)
    ensures e.Assessed? ==> e.finalExamScore == (if e.quizPassed then 50.0 else 0.0) + (if e.codingCompleted then 50.0 else 0.0)
    ensures e.Assessed? ==> e.overallCompletion == 0.7 * e.learningProgress + 0.3 * e.finalExamScore
    ensures e.Assessed? ==> (e.eligible <==> e.overallCompletion >= 90.0 && e.quizPassed && e.codingCompleted)
  {
    if Falsy(doc) then NoProgress
    else
      var d := doc.value;
      var learning := LearningOf(d);
      var quizScore := if d.quiz.Some? then d.quiz.value.bestScore else 0.0;
      var quizPassed := d.quiz.Some? && d.quiz.value.passed;
      var codingCompleted := d.coding.Some? && d.coding.value.completed;
      var codingScore := if d.coding.Some? then d.coding.value.bestScore else 0.0;
      var exam := (if quizPassed then 50.0 else 0.0) + (if codingCompleted then 50.0 else 0.0);
      var overall := learning * 0.7 + exam * 0.3;
      Assessed(overall >= 90.0 && quizPassed && codingCompleted, learning, quizScore, quizPassed,
               codingScore, codingCompleted, exam, overall)
  }

  /** Eligibility needs at least 600/7 (about 85.7) percent of the learning modules. */
  lemma EligibleNeedsLearning(doc: Option<ProgressDoc>)
    requires CertificationEligibility(doc).IsEligible()
    ensures 7.0 * CertificationEligibility(doc).learningProgress >= 600.0
  {
  }

  /** The two documented cases: 90% learning gives 93 (eligible), 85% gives 89.5 (not eligible). */
  lemma EligibilityExamples(q: QuizProgress, c: CodingProgress)
    requires q.passed && c.completed
    ensures var d := EmptyDoc.(quiz := Some(q), coding := Some(c));
      var e90 := CertificationEligibility(Some(d.(completionPercentage := Number(90.0))));
      var e85 := CertificationEligibility(Some(d.(completionPercentage := Number(85.0))));
      e90.overallCompletion == 93.0 && e90.eligible && e85.overallCompletion == 89.5 && !e85.eligible
  {
  }

  /** The `course_progress` collection, keyed by document id. */
  class ProgressRepository {
    var docs: map<string, ProgressDoc>

    constructor()
      ensures docs == map[]
    {
      docs := map[];
    }

    /** `get_user_course_progress`. */
    function Get(userId: string, courseId: string): Option<ProgressDoc>
      reads this
    {
      var id := DocId(userId, courseId);
      if id in docs then Some(docs[id]) else None
    }

    function Current(userId: string, courseId: string): ProgressDoc
      reads this
    {
      Get(userId, courseId).GetOr(EmptyDoc)
    }

    /** `sync_progress`: merge the module list and percentage into the document. */
    method SyncProgress(userId: string, courseId: string, modules: seq<string>, completion: real, now: int)
      modifies this
      ensures docs == old(docs)[DocId(userId, courseId) :=
        Synced(old(Current(userId, courseId)), userId, courseId, modules, completion, now)]
    {
      var prev := Current(userId, courseId);
      docs := docs[DocId(userId, courseId) := Synced(prev, userId, courseId, modules, completion, now)];
    }

    /** `update_quiz_progress`: merge the new quiz record into the document. */
    method UpdateQuizProgress(userId: string, courseId: string, score: real, passed: bool, now: int)
      modifies this
      ensures var prev := old(Current(userId, courseId));
        docs == old(docs)[DocId(userId, courseId) := Stamp(prev.(quiz := Some(QuizAfter(prev.quiz, score, passed, now))), now)]
    {
      var prev := Current(userId, courseId);
      var q := QuizAfter(prev.quiz, score, passed, now);
      docs := docs[DocId(userId, courseId) := Stamp(prev.(quiz := Some(q)), now)];
    }

    /** `update_coding_progress`: merge the new coding record, and the coding module when passed. */
    method UpdateCodingProgress(userId: string, courseId: string, score: real, problemId: string,
                                language: string, code: string, passed: bool, now: int)
      modifies this
      ensures docs == old(docs)[DocId(userId, courseId) :=
        CodingUpdated(old(Current(userId, courseId)), score, problemId, language, code, passed, now)]
    {
      var prev := Current(userId, courseId);
      docs := docs[DocId(userId, courseId) := CodingUpdated(prev, score, problemId, language, code, passed, now)];
    }

    /** `get_certification_eligibility` on the stored document. */
    function GetCertificationEligibility(userId: string, courseId: string): (e: Eligibility)
      reads this
      ensures e == CertificationEligibility(Get(userId, courseId))
    {
      CertificationEligibility(Get(userId, courseId))
    }
  }
}
