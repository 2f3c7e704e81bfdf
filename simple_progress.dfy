/**
 * The simplified progress service the frontend talks to: course progress synced
 * wholesale, quiz results with their pass flag, certification status computed the
 * way the frontend computes it, anti-cheat violations and quiz blocks, wallets and
 * NFT certificate records. The `course_progress` documents are the progress
 * repository's own: the service holds that repository and writes into it. Each
 * other Firestore collection is a map field; document ids from `uuid4` and the
 * clock are parameters; times are milliseconds.
 */
module SimpleProgress {
  import opened Prelude
  import opened Ordering
  import ProgressRepo

  /** A `course_progress` document: the one document type both progress services share. */
  type CourseProgress = ProgressRepo.ProgressDoc

  /** An answer or violation entry, stored as given. */
  type Entry = map<string, string>

  /** A `quiz_results` document. */
  datatype QuizResult = QuizResult(
    id: string, userId: string, courseId: string, score: real, passed: bool,
    answers: seq<Entry>, violations: seq<Entry>, completedAt: int)

  /** A `quiz_violations` document and the view `get_violations` returns of it. */
  datatype Violation = Violation(id: string, userId: string, courseId: string, violationType: string,
                                 timestamp: string, createdAt: int)
  datatype ViolationView = ViolationView(id: string, kind: string, timestamp: string)

  /** A `quiz_blocks` document; its end time may be absent. */
  datatype QuizBlock = QuizBlock(userId: string, courseId: string, violationCount: Option<int>,
                                 blockEndTime: Option<int>, blockedAt: int, isActive: bool)

  datatype Wallet = Wallet(userId: string, walletAddress: string, walletType: string, connectedAt: int, lastUpdated: int)

  datatype NftCertificate = NftCertificate(userId: string, courseId: string, certificateImageUrl: string,
                                           transactionSignature: string, mintAddress: string, mintedAt: string,
                                           savedAt: int)

  datatype SyncReply = SyncReply(completionPercentage: real, modulesCompleted: nat)
  datatype QuizResultReply = QuizResultReply(id: string, score: real, passed: bool)
  datatype BlockReply = BlockReply(blockEndTime: int, blockDurationMinutes: int)
  datatype BlockStatus = NotBlocked | Blocked(blockEndTime: int, timeRemainingMs: int, violationCount: int)

  /** What `get_certification_status` returns (its numeric requirement lines aside). */
  datatype CertStatus = CertStatus(
    userId: string, courseId: string, quizScore: Option<real>, codingScore: Option<real>,
    codingCompleted: bool, finalExamScore: real, courseCompletion: ProgressRepo.Field, overallCompletion: real,
    quizPassed: bool, courseCompleted: bool, eligible: bool, status: string, codingRequirement: string)

  const QuizPassMark: real := 85.0
  const MillisPerMinute: int := 60000
  const CodingModule := "coding-challenge"

  function BlockDocId(userId: string, courseId: string): string {
    userId + "_" + courseId + "_block"
  }

  function NftDocId(userId: string, courseId: string): string {
    userId + "_" + courseId + "_nft"
  }

  // ---------------------------------------------------------------------------
  // Course progress

  /**
   * The document `sync_course_progress` writes: a whole new document, not a merge,
   * so the quiz and coding records and the timestamps the progress repository keeps
   * in it are gone.
   */
  function SyncedProgress(userId: string, courseId: string, modules: seq<string>, completion: real,
                          quizScore: Option<real>, now: int): (d: CourseProgress)
    ensures d.userId == Some(userId) && d.courseId == Some(courseId)
    ensures d.modulesCompleted == Some(modules) && d.completionPercentage == ProgressRepo.Number(completion)
    ensures d.quizScore == ProgressRepo.FieldOf(quizScore) && d.lastUpdated == Some(now)
    ensures d.quiz.None? && d.coding.None? && d.codingChallenge.None?
    ensures d.createdAt.None? && d.updatedAt.None?
  {
    ProgressRepo.ProgressDoc(Some(userId), Some(courseId), Some(modules), ProgressRepo.Number(completion),
                             ProgressRepo.FieldOf(quizScore), Some(now), None, None, None, None, None)
  }

  /**
   * Whatever the document held before, after `sync_course_progress` the progress
   * repository reads no passed quiz and no completed coding challenge, so it finds
   * the user not eligible; its own `sync_progress` keeps both records. The coding
   * challenge counts as done for this service only if the synced list names it.
   */
  lemma SyncDropsRepositoryRecords(prev: CourseProgress, userId: string, courseId: string, modules: seq<string>,
                                   completion: real, quizScore: Option<real>, now: int)
    ensures var e := ProgressRepo.CertificationEligibility(Some(SyncedProgress(userId, courseId, modules, completion, quizScore, now)));
      e.Assessed? && !e.quizPassed && !e.codingCompleted && !e.eligible && e.finalExamScore == 0.0
    ensures var d := ProgressRepo.Synced(prev, userId, courseId, modules, completion, now);
      d.quiz == prev.quiz && d.coding == prev.coding
    ensures var s := CertificationStatus(userId, courseId, SyncedProgress(userId, courseId, modules, completion, quizScore, now), [], None);
      s.Ok? && (s.value.codingCompleted <==> CodingModule in modules)
  {
  }

  /**
   * A passed coding submission is undone by a later sync of the learning modules
   * alone: before it both services count the coding challenge as completed, after it
   * neither does.
   */
  lemma SyncUndoesCodingPass(prev: CourseProgress, userId: string, courseId: string, score: real, problemId: string,
                             language: string, code: string, modules: seq<string>, completion: real, now: int)
    requires CodingModule !in modules
    ensures var d := ProgressRepo.CodingUpdated(prev, score, problemId, language, code, true, now);
      ProgressRepo.CertificationEligibility(Some(d)).codingCompleted && CodingModule in d.modulesCompleted.GetOr([])
    ensures var d := SyncedProgress(userId, courseId, modules, completion, None, now);
      !ProgressRepo.CertificationEligibility(Some(d)).codingCompleted && CodingModule !in d.modulesCompleted.GetOr([])
  {
    var d := ProgressRepo.CodingUpdated(prev, score, problemId, language, code, true, now);
    var m := ProgressRepo.ModulesAfterCoding(prev.modulesCompleted, true);
    assert m.Some? ==> m.value[|m.value| - 1] == CodingModule;
  }

  /** The progress reported when there is no document. */
  function DefaultProgress(userId: string, courseId: string, now: int): (d: CourseProgress)
    ensures d.modulesCompleted == Some([]) && d.completionPercentage == ProgressRepo.Number(0.0)
    ensures d.quizScore == ProgressRepo.Null && d.quiz.None? && d.coding.None? && d.codingChallenge.None?
    ensures d.userId == Some(userId) && d.courseId == Some(courseId)
  {
    ProgressRepo.ProgressDoc(Some(userId), Some(courseId), Some([]), ProgressRepo.Number(0.0), ProgressRepo.Null,
                             Some(now), None, None, None, None, None)
  }

  // ---------------------------------------------------------------------------
  // Quiz results

  /** The pass flag stored with a quiz result. */
  predicate QuizPassed(score: real) {
    score >= QuizPassMark
  }

  function NewQuizResult(id: string, userId: string, courseId: string, score: real,
                         answers: seq<Entry>, violations: seq<Entry>, now: int): (r: QuizResult)
    ensures r.passed <==> score >= 85.0
    ensures r.id == id && r.score == score && r.completedAt == now
  {
    QuizResult(id, userId, courseId, score, QuizPassed(score), answers, violations, now)
  }

  predicate ResultOf(r: QuizResult, userId: string, courseId: string) {
    r.userId == userId && r.courseId == courseId
  }

  /** The query `where user_id == … where course_id == …` over the collection's stream. */
  function MatchingResults(stream: seq<QuizResult>, userId: string, courseId: string): (rs: seq<QuizResult>)
    ensures forall r <- rs :: r in stream && ResultOf(r, userId, courseId)
    ensures forall r <- stream :: ResultOf(r, userId, courseId) ==> r in rs
    ensures forall r :: multiset(rs)[r] == if ResultOf(r, userId, courseId) then multiset(stream)[r] else 0
  {
    if stream == [] then []
    else
      var last := stream[|stream| - 1];
      assert stream == stream[..|stream| - 1] + [last];
      assert forall r <- stream :: r in stream[..|stream| - 1] || r == last;
      MatchingResults(stream[..|stream| - 1], userId, courseId) + (if ResultOf(last, userId, courseId) then [last] else [])
  }

  /** `reverse=True` on `completed_at`: a later or equally late result first. */
  predicate LaterOrSame(a: QuizResult, b: QuizResult) {
    a.completedAt >= b.completedAt
  }

  /** `get_quiz_results`: the user's results for the course, most recently completed first. */
  function QuizResultsOf(stream: seq<QuizResult>, userId: string, courseId: string): (rs: seq<QuizResult>)
    ensures forall i, j :: 0 <= i < j < |rs| ==> rs[i].completedAt >= rs[j].completedAt
    ensures forall r :: r in rs <==> r in stream && ResultOf(r, userId, courseId)
    ensures multiset(rs) == multiset(MatchingResults(stream, userId, courseId))
  {
    assert TotalPreorder(LaterOrSame);
    var matching := MatchingResults(stream, userId, courseId);
    var rs := SortBy(matching, LaterOrSame);
    SortByElements(matching, LaterOrSame);
    assert SortedBy(rs, LaterOrSame);
    rs
  }

  /** `max([r['score'] for r in quiz_results], default=0)`. */
  function BestQuizScore(results: seq<QuizResult>): (best: real)
    ensures results == [] ==> best == 0.0
    ensures forall r <- results :: r.score <= best
    ensures results != [] ==> exists r <- results :: r.score == best
  {
    if results == [] then 0.0
    else
      var init := results[..|results| - 1];
      var last := results[|results| - 1];
      assert forall r <- results :: r in init || r == last;
      if init == [] || last.score > BestQuizScore(init) then last.score else BestQuizScore(init)
  }

  /** The best score passes exactly when some result reached the pass mark. */
  lemma BestPassesIffSomePassed(results: seq<QuizResult>)
    ensures QuizPassed(BestQuizScore(results)) <==> exists r <- results :: QuizPassed(r.score)
  {
  }

  /** Over a listing of the collection, the query is empty exactly when no stored result is the user's for the course. */
  lemma ListedResults(stored: map<string, QuizResult>, stream: seq<QuizResult>, userId: string, courseId: string)
    requires forall r <- stream :: r.id in stored && stored[r.id] == r
    requires forall id <- stored :: stored[id] in stream
    ensures QuizResultsOf(stream, userId, courseId) == [] <==> forall id <- stored :: !ResultOf(stored[id], userId, courseId)
  {
    var results := QuizResultsOf(stream, userId, courseId);
    if results != [] {
      assert results[0] in results;
      assert results[0].id in stored;
    } else {
      forall id <- stored ensures !ResultOf(stored[id], userId, courseId) {
        assert stored[id] in stream;
      }
    }
  }

  // ---------------------------------------------------------------------------
  // Certification status

  /**
   * `get_certification_status`: the exam is 50 for a best quiz score of at least 85
   * plus 50 for the coding module being completed; overall is 70% learning plus 30%
   * exam; eligible exactly when overall is 100 with the quiz passed and the coding
   * completed. A document without a `completion_percentage` key raises `KeyError`.
   */
  function CertificationStatus(userId: string, courseId: string, progress: CourseProgress,
                               results: seq<QuizResult>, codingScore: Option<real>): (s: Result<CertStatus>)
    ensures s.Err? <==> progress.completionPercentage.Missing?
    ensures s.Ok? ==> (s.value.codingCompleted <==> CodingModule in progress.modulesCompleted.GetOr([]))
    ensures s.Ok? ==> (s.value.quizPassed <==> exists r <- results :: r.score >= 85.0)
    ensures s.Ok? ==> s.value.quizScore == (if results == [] then None else Some(BestQuizScore(results)))
    ensures s.Ok? ==>
      s.value.finalExamScore == (if s.value.quizPassed then 50.0 else 0.0) + (if s.value.codingCompleted then 50.0 else 0.0)
    ensures s.Ok? ==> (s.value.status == "eligible" <==> s.value.eligible)
  {
    if progress.completionPercentage.Missing? then Err("Error getting certification status: 'completion_percentage'")
    else
      var learning := ProgressRepo.LearningOf(progress);
      var best := BestQuizScore(results);
      BestPassesIffSomePassed(results);
      var codingCompleted := CodingModule in progress.modulesCompleted.GetOr([]);
      var quizPassed := QuizPassed(best);
      var exam := (if quizPassed then 50.0 else 0.0) + (if codingCompleted then 50.0 else 0.0);
      var overall := learning * 0.7 + exam * 0.3;
      var eligible := overall == 100.0 && quizPassed && codingCompleted;
      Ok(CertStatus(userId, courseId, if results == [] then None else Some(best), codingScore, codingCompleted,
                    exam, progress.completionPercentage, overall, quizPassed, learning == 100.0, eligible,
                    if eligible then "eligible" else "not_eligible",
                    if codingCompleted then "Complete" else "Not complete"))
  }

  /**
   * The eligibility rule in plain terms: all of the learning, a passing quiz and the
   * coding module, and nothing less.
   */
  lemma EligibleExactly(userId: string, courseId: string, progress: CourseProgress,
                        results: seq<QuizResult>, codingScore: Option<real>)
    requires !progress.completionPercentage.Missing?
    ensures var s := CertificationStatus(userId, courseId, progress, results, codingScore).value;
      s.eligible <==> ProgressRepo.LearningOf(progress) == 100.0 && s.quizPassed && s.codingCompleted
  {
  }

  /**
   * This rule is stricter than the progress repository's: one document with 90%
   * learning, a passed quiz and completed coding is eligible there (overall 93) but
   * not here.
   */
  lemma StricterThanRepositoryRule(q: ProgressRepo.QuizProgress, c: ProgressRepo.CodingProgress, r: QuizResult)
    requires q.passed && c.completed && r.userId == "u" && r.courseId == "c" && r.score >= 85.0
    ensures var d := ProgressRepo.EmptyDoc.(quiz := Some(q), coding := Some(c), modulesCompleted := Some([CodingModule]),
                                            completionPercentage := ProgressRepo.Number(90.0));
      ProgressRepo.CertificationEligibility(Some(d)).IsEligible()
      && !CertificationStatus("u", "c", d, [r], None).value.eligible
  {
    var d := ProgressRepo.EmptyDoc.(quiz := Some(q), coding := Some(c), modulesCompleted := Some([CodingModule]),
                                    completionPercentage := ProgressRepo.Number(90.0));
    EligibleExactly("u", "c", d, [r], None);
  }

  // ---------------------------------------------------------------------------
  // Violations

  predicate EarlierOrSame(a: ViolationView, b: ViolationView) {
    StrLe(a.timestamp, b.timestamp)
  }

  lemma EarlierOrSameOrders()
    ensures TotalPreorder(EarlierOrSame)
  {
    forall a: ViolationView, b: ViolationView ensures EarlierOrSame(a, b) || EarlierOrSame(b, a) {
      StrLeTotal(a.timestamp, b.timestamp);
    }
    forall a: ViolationView, b: ViolationView, c: ViolationView | EarlierOrSame(a, b) && EarlierOrSame(b, c)
      ensures EarlierOrSame(a, c)
    {
      StrLeTrans(a.timestamp, b.timestamp, c.timestamp);
    }
  }

  function ViewOf(v: Violation): ViolationView {
    ViolationView(v.id, v.violationType, v.timestamp)
  }

  /** How many of the stream's violations of one user and course show as the view `x`. */
  function ViewCount(stream: seq<Violation>, userId: string, courseId: string, x: ViolationView): nat {
    if stream == [] then 0
    else
      var last := stream[|stream| - 1];
      ViewCount(stream[..|stream| - 1], userId, courseId, x)
        + (if last.userId == userId && last.courseId == courseId && ViewOf(last) == x then 1 else 0)
  }

  /** The views of the stream's violations of one user and course, in stream order. */
  function MatchingViolations(stream: seq<Violation>, userId: string, courseId: string): (vs: seq<ViolationView>)
    ensures forall x <- vs :: exists v <- stream :: v.userId == userId && v.courseId == courseId && x == ViewOf(v)
    ensures forall v <- stream :: v.userId == userId && v.courseId == courseId ==> ViewOf(v) in vs
    ensures forall x :: multiset(vs)[x] == ViewCount(stream, userId, courseId, x)
  {
    if stream == [] then []
    else
      var last := stream[|stream| - 1];
      var init := stream[..|stream| - 1];
      assert forall v <- stream :: v in init || v == last;
      assert forall v <- init :: v in stream;
      MatchingViolations(init, userId, courseId)
        + (if last.userId == userId && last.courseId == courseId then [ViewOf(last)] else [])
  }

  /** `get_violations`: the user's violations for the course, oldest timestamp first. */
  function ViolationsOf(stream: seq<Violation>, userId: string, courseId: string): (vs: seq<ViolationView>)
    ensures forall i, j :: 0 <= i < j < |vs| ==> StrLe(vs[i].timestamp, vs[j].timestamp)
    ensures forall x :: x in vs <==> x in MatchingViolations(stream, userId, courseId)
    ensures multiset(vs) == multiset(MatchingViolations(stream, userId, courseId))
  {
    EarlierOrSameOrders();
    var matching := MatchingViolations(stream, userId, courseId);
    var vs := SortBy(matching, EarlierOrSame);
    SortByElements(matching, EarlierOrSame);
    assert SortedBy(vs, EarlierOrSame);
    vs
  }

  // ---------------------------------------------------------------------------
  // Quiz blocks

  /** The status of the block document `id` at time `now`: blocked while its end is still ahead. */
  function BlockStatusOf(blocks: map<string, QuizBlock>, id: string, now: int): (s: BlockStatus)
    ensures s.Blocked? <==> id in blocks && blocks[id].blockEndTime.Some? && blocks[id].blockEndTime.value > now
    ensures s.Blocked? ==> s.blockEndTime == blocks[id].blockEndTime.value && s.timeRemainingMs == s.blockEndTime - now > 0
  {
    if id in blocks && blocks[id].blockEndTime.Some? && blocks[id].blockEndTime.value > now then
      var end := blocks[id].blockEndTime.value;
      Blocked(end, end - now, blocks[id].violationCount.GetOr(0))
    else NotBlocked
  }

  /** The document `block_quiz_access` writes: active, ending `minutes` after `now`. */
  function NewBlock(userId: string, courseId: string, minutes: int, violationCount: int, now: int): (b: QuizBlock)
    ensures b.isActive && b.blockEndTime == Some(now + minutes * MillisPerMinute)
  {
    QuizBlock(userId, courseId, Some(violationCount), Some(now + minutes * MillisPerMinute), now, true)
  }

  /** A block written at `created` for `minutes` holds exactly until it ends. */
  lemma BlockHoldsUntilEnd(blocks: map<string, QuizBlock>, userId: string, courseId: string,
                           minutes: int, violationCount: int, created: int, now: int)
    ensures var id := BlockDocId(userId, courseId);
      var s := BlockStatusOf(blocks[id := NewBlock(userId, courseId, minutes, violationCount, created)], id, now);
      (s.Blocked? <==> now < created + minutes * MillisPerMinute)
      && (s.Blocked? ==> s.timeRemainingMs == created + minutes * MillisPerMinute - now && s.violationCount == violationCount)
  {
  }

  // ---------------------------------------------------------------------------
  // The service

  /**
   * The service's collections. `course_progress` is the very collection the progress
   * repository keeps, so the service holds that repository and writes its documents.
   */
  class UserProgressService {
    const progress: ProgressRepo.ProgressRepository
    var quizResults: map<string, QuizResult>
    var violations: map<string, Violation>
    var blocks: map<string, QuizBlock>
    var wallets: map<string, Wallet>
    var nftCertificates: map<string, NftCertificate>

    constructor(repository: ProgressRepo.ProgressRepository)
      ensures progress == repository && quizResults == map[] && violations == map[]
      ensures blocks == map[] && wallets == map[] && nftCertificates == map[]
    {
      progress := repository;
      quizResults := map[];
      violations := map[];
      blocks := map[];
      wallets := map[];
      nftCertificates := map[];
    }

    /**
     * `sync_course_progress`: the document is replaced, not merged, so the quiz and
     * coding records the progress repository merged into it are dropped, and so is
     * a stored coding record.
     */
    method SyncCourseProgress(userId: string, courseId: string, modules: seq<string>, completion: real,
                              quizScore: Option<real>, now: int)
      returns (reply: SyncReply)
      modifies progress
      ensures reply == SyncReply(completion, |modules|)
      ensures progress.docs == old(progress.docs)[ProgressRepo.DocId(userId, courseId) :=
        SyncedProgress(userId, courseId, modules, completion, quizScore, now)]
      ensures GetCodingChallengeScore(userId, courseId).None?
      ensures var e := progress.GetCertificationEligibility(userId, courseId);
        e.Assessed? && !e.quizPassed && !e.codingCompleted && !e.eligible
      ensures quizResults == old(quizResults) && violations == old(violations) && blocks == old(blocks)
      ensures wallets == old(wallets) && nftCertificates == old(nftCertificates)
    {
      progress.docs := progress.docs[ProgressRepo.DocId(userId, courseId) :=
        SyncedProgress(userId, courseId, modules, completion, quizScore, now)];
      SyncDropsRepositoryRecords(ProgressRepo.EmptyDoc, userId, courseId, modules, completion, quizScore, now);
      reply := SyncReply(completion, |modules|);
    }

    /** `get_course_progress`: the stored document, or the defaults. */
    function GetCourseProgress(userId: string, courseId: string, now: int): (d: CourseProgress)
      reads progress
      ensures ProgressRepo.DocId(userId, courseId) !in progress.docs ==> d == DefaultProgress(userId, courseId, now)
      ensures ProgressRepo.DocId(userId, courseId) in progress.docs ==> d == progress.docs[ProgressRepo.DocId(userId, courseId)]
    {
      var id := ProgressRepo.DocId(userId, courseId);
      if id in progress.docs then progress.docs[id] else DefaultProgress(userId, courseId, now)
    }

    /** `get_coding_challenge_score`: the stored coding record's score, if any. */
    function GetCodingChallengeScore(userId: string, courseId: string): (s: Option<real>)
      reads progress
      ensures s.Some? ==> ProgressRepo.DocId(userId, courseId) in progress.docs
      ensures var id := ProgressRepo.DocId(userId, courseId);
        id in progress.docs && progress.docs[id].codingChallenge.Some? ==> s == progress.docs[id].codingChallenge.value.score
      ensures var id := ProgressRepo.DocId(userId, courseId);
        id !in progress.docs || progress.docs[id].codingChallenge.None? ==> s.None?
    {
      var id := ProgressRepo.DocId(userId, courseId);
      if id in progress.docs && progress.docs[id].codingChallenge.Some? then progress.docs[id].codingChallenge.value.score
      else None
    }

    /** `save_quiz_result` under the fresh id `id`: the result is stored with its pass flag. */
    method SaveQuizResult(id: string, userId: string, courseId: string, score: real,
                          answers: seq<Entry>, violationEntries: seq<Entry>, now: int)
      returns (reply: QuizResultReply)
      modifies this
      ensures reply.id == id && reply.score == score && (reply.passed <==> score >= 85.0)
      ensures quizResults == old(quizResults)[id := NewQuizResult(id, userId, courseId, score, answers, violationEntries, now)]
      ensures progress.docs == old(progress.docs) && violations == old(violations) && blocks == old(blocks)
      ensures wallets == old(wallets) && nftCertificates == old(nftCertificates)
    {
      var result := NewQuizResult(id, userId, courseId, score, answers, violationEntries, now);
      quizResults := quizResults[id := result];
      reply := QuizResultReply(id, score, result.passed);
    }

    /** `stream` lists the stored quiz results, each once. */
    predicate ListsResults(stream: seq<QuizResult>)
      reads this
    {
      (forall r <- stream :: r.id in quizResults && quizResults[r.id] == r)
      && (forall id <- quizResults :: quizResults[id] in stream)
    }

    /** `get_certification_status` on the stored progress, quiz results and coding record. */
    function GetCertificationStatus(userId: string, courseId: string, stream: seq<QuizResult>, now: int)
      : (s: Result<CertStatus>)
      reads this, progress
      requires ListsResults(stream)
      ensures s.Ok? ==> (s.value.quizScore.None? <==> forall id <- quizResults :: !ResultOf(quizResults[id], userId, courseId))
      ensures ProgressRepo.DocId(userId, courseId) !in progress.docs ==> s.Ok? && !s.value.eligible
    {
      ListedResults(quizResults, stream, userId, courseId);
      CertificationStatus(userId, courseId, GetCourseProgress(userId, courseId, now),
                          QuizResultsOf(stream, userId, courseId), GetCodingChallengeScore(userId, courseId))
    }

    /** `save_violation` under the fresh id `id`. */
    method SaveViolation(id: string, userId: string, courseId: string, violationType: string,
                         timestamp: string, now: int)
      modifies this
      ensures violations == old(violations)[id := Violation(id, userId, courseId, violationType, timestamp, now)]
      ensures progress.docs == old(progress.docs) && quizResults == old(quizResults) && blocks == old(blocks)
      ensures wallets == old(wallets) && nftCertificates == old(nftCertificates)
    {
      violations := violations[id := Violation(id, userId, courseId, violationType, timestamp, now)];
    }

    /** `block_quiz_access`: the block document, active, ending `minutes` after now. */
    method BlockQuizAccess(userId: string, courseId: string, minutes: int, violationCount: int, now: int)
      returns (reply: BlockReply)
      modifies this
      ensures reply == BlockReply(now + minutes * MillisPerMinute, minutes)
      ensures blocks == old(blocks)[BlockDocId(userId, courseId) := NewBlock(userId, courseId, minutes, violationCount, now)]
      ensures progress.docs == old(progress.docs) && quizResults == old(quizResults) && violations == old(violations)
      ensures wallets == old(wallets) && nftCertificates == old(nftCertificates)
    {
      blocks := blocks[BlockDocId(userId, courseId) := NewBlock(userId, courseId, minutes, violationCount, now)];
      reply := BlockReply(now + minutes * MillisPerMinute, minutes);
    }

    /**
     * `get_quiz_block_status`: blocked while the stored end time is ahead, with the
     * remaining milliseconds; an expired or end-less block is marked inactive.
     */
    method GetQuizBlockStatus(userId: string, courseId: string, now: int) returns (status: BlockStatus)
      modifies this
      ensures status == BlockStatusOf(old(blocks), BlockDocId(userId, courseId), now)
      ensures var id := BlockDocId(userId, courseId);
        blocks == if id in old(blocks) && status.NotBlocked? then old(blocks)[id := old(blocks)[id].(isActive := false)]
                  else old(blocks)
      ensures progress.docs == old(progress.docs) && quizResults == old(quizResults) && violations == old(violations)
      ensures wallets == old(wallets) && nftCertificates == old(nftCertificates)
    {
      var id := BlockDocId(userId, courseId);
      if id !in blocks {
        return NotBlocked;
      }
      var block := blocks[id];
      if block.blockEndTime.Some? && block.blockEndTime.value > now {
        var end := block.blockEndTime.value;
        status := Blocked(end, end - now, block.violationCount.GetOr(0));
      } else {
        blocks := blocks[id := block.(isActive := false)];
        status := NotBlocked;
      }
    }

    /** `save_user_wallet`: the wallet document is replaced. */
    method SaveUserWallet(userId: string, walletAddress: string, walletType: string, now: int)
      returns (saved: string)
      modifies this
      ensures saved == walletAddress
      ensures wallets == old(wallets)[userId := Wallet(userId, walletAddress, walletType, now, now)]
      ensures GetUserWallet(userId) == Some(Wallet(userId, walletAddress, walletType, now, now))
      ensures progress.docs == old(progress.docs) && quizResults == old(quizResults) && violations == old(violations)
      ensures blocks == old(blocks) && nftCertificates == old(nftCertificates)
    {
      wallets := wallets[userId := Wallet(userId, walletAddress, walletType, now, now)];
      saved := walletAddress;
    }

    /** `get_user_wallet`. */
    function GetUserWallet(userId: string): (w: Option<Wallet>)
      reads this
      ensures w.Some? <==> userId in wallets
      ensures w.Some? ==> w.value == wallets[userId]
    {
      if userId in wallets then Some(wallets[userId]) else None
    }

    /** `save_nft_certificate`: the certificate record of the (user, course) is replaced. */
    method SaveNftCertificate(userId: string, courseId: string, imageUrl: string, signature: string,
                              mintAddress: string, mintedAt: string, now: int)
      modifies this
      ensures nftCertificates == old(nftCertificates)[NftDocId(userId, courseId) :=
        NftCertificate(userId, courseId, imageUrl, signature, mintAddress, mintedAt, now)]
      ensures GetNftCertificate(userId, courseId).Some?
      ensures progress.docs == old(progress.docs) && quizResults == old(quizResults) && violations == old(violations)
      ensures blocks == old(blocks) && wallets == old(wallets)
    {
      nftCertificates := nftCertificates[NftDocId(userId, courseId) :=
        NftCertificate(userId, courseId, imageUrl, signature, mintAddress, mintedAt, now)];
    }

    /** `get_nft_certificate`. */
    function GetNftCertificate(userId: string, courseId: string): (c: Option<NftCertificate>)
      reads this
      ensures c.Some? <==> NftDocId(userId, courseId) in nftCertificates
      ensures c.Some? ==> c.value == nftCertificates[NftDocId(userId, courseId)]
    {
      var id := NftDocId(userId, courseId);
      if id in nftCertificates then Some(nftCertificates[id]) else None
    }

    /** `delete_nft_certificate`: afterwards there is no record for the (user, course). */
    method DeleteNftCertificate(userId: string, courseId: string)
      modifies this
      ensures nftCertificates == old(nftCertificates) - {NftDocId(userId, courseId)}
      ensures GetNftCertificate(userId, courseId).None?
      ensures progress.docs == old(progress.docs) && quizResults == old(quizResults) && violations == old(violations)
      ensures blocks == old(blocks) && wallets == old(wallets)
    {
      nftCertificates := nftCertificates - {NftDocId(userId, courseId)};
    }
  }
}
