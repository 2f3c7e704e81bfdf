/**
 * The coding-challenge service: a successful evaluation is saved as a coding
 * submission and merged into the course progress, with a pass at 50 points or more;
 * a failed evaluation is returned as it is and nothing is saved.
 */
module CodingService {
  import opened Prelude
  import opened CodingEvaluation
  import AssessmentRepo
  import ProgressRepo

  /** The coding pass mark: 50 passes, 49 does not. */
  function CodingPassed(score: int): (b: bool)
    ensures b <==> BandOf(score) != Review
  {
    score >= 50
  }

  lemma CodingPassMark()
    ensures CodingPassed(50) && !CodingPassed(49)
  {
  }

  /** The submission `submit_code` saves for a successful evaluation. */
  function CodingSubmission(id: string, userId: string, courseId: string, code: string, language: string,
                            problemId: string, e: Evaluation, now: int): (s: AssessmentRepo.Submission)
    ensures s.kind == "coding" && s.score == e.score as real
    ensures s.payload.CodingPayload? && s.payload.testResults == e.results
  {
    AssessmentRepo.NewSubmission(id, userId, courseId, "coding", e.score as real, None, Some(code), Some(problemId),
                                 Some(language), Some(AssessmentRepo.Metadata(Some(e.results), Some(e.complexity))), now)
  }

  /**
   * `submit_code`: evaluate; on failure return the evaluation and change nothing; on
   * success save the submission (id `submissionId`), update the coding progress with
   * the same score and the pass flag, and return the evaluation unchanged.
   */
  method SubmitCode(assessments: AssessmentRepo.AssessmentRepository, progress: ProgressRepo.ProgressRepository,
                    executor: Executor, userId: string, courseId: string, code: string, language: string,
                    problemId: string, antiCheat: Option<map<string, int>>, submissionId: string, now: int)
    returns (r: Result<Evaluation>)
    modifies assessments, progress
    ensures r == EvaluateSubmission(executor, code, language, problemId, antiCheat)
    ensures r.Err? ==> assessments.submissions == old(assessments.submissions) && progress.docs == old(progress.docs)
    ensures r.Ok? ==> assessments.submissions == old(assessments.submissions)[submissionId :=
      CodingSubmission(submissionId, userId, courseId, code, language, problemId, r.value, now)]
    ensures r.Ok? ==> progress.docs == old(progress.docs)[ProgressRepo.DocId(userId, courseId) :=
      ProgressRepo.CodingUpdated(old(progress.Current(userId, courseId)), r.value.score as real, problemId,
                                 language, code, CodingPassed(r.value.score), now)]
    ensures assessments.events == old(assessments.events)
  {
    r := EvaluateSubmission(executor, code, language, problemId, antiCheat);
    if r.Err? {
      return;
    }
    var evaluation := r.value;
    var score := evaluation.score;
    var passed := CodingPassed(score);
    var metadata := AssessmentRepo.Metadata(Some(evaluation.results), Some(evaluation.complexity));
    var _ := assessments.CreateSubmission(submissionId, userId, courseId, "coding", score as real, None, Some(code),
                                          Some(problemId), Some(language), Some(metadata), now);
    progress.UpdateCodingProgress(userId, courseId, score as real, problemId, language, code, passed, now);
  }

  /** A perfect, penalty-free submission passes and marks the coding challenge complete. */
  lemma PerfectSubmissionCompletes(executor: Executor, code: string, language: string,
                                   antiCheat: Option<map<string, int>>, prev: ProgressRepo.ProgressDoc,
                                   problemId: string, now: int)
    requires var r := EvaluateSubmission(executor, code, language, problemId, antiCheat);
      r.Ok? && r.value.score == 100
    ensures var r := EvaluateSubmission(executor, code, language, problemId, antiCheat);
      var d := ProgressRepo.CodingUpdated(prev, r.value.score as real, problemId, language, code,
                                          CodingPassed(r.value.score), now);
      d.coding.Some? && d.coding.value.completed && ProgressRepo.CodingChallenge in d.modulesCompleted.GetOr([])
  {
  }

  /** `get_submissions`: the user's ten newest coding submissions for the course. */
  function CodingSubmissions(stream: seq<AssessmentRepo.Submission>, userId: string, courseId: string)
    : (r: seq<AssessmentRepo.Submission>)
    ensures |r| <= 10 && AssessmentRepo.NewestFirst(r)
    ensures forall s <- r :: s in stream && s.kind == "coding" && s.userId == userId && s.courseId == courseId
    ensures var matching := AssessmentRepo.Filter(stream, userId, courseId, Some("coding"));
      multiset(r) == multiset(AssessmentRepo.Take(matching, 10))
  {
    AssessmentRepo.UserSubmissions(stream, userId, courseId, Some("coding"), 10)
  }
}
