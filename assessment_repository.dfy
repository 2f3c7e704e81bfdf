/**
 * The `assessment_submissions` and `anti_cheat_events` collections: quiz and coding
 * submissions, violation events and the per-assessment block document. Document ids
 * from `uuid4`, the clock and its ISO rendering are parameters; times are
 * milliseconds.
 */
module AssessmentRepo {
  import opened Prelude
  import CodingEvaluation
  import opened Ordering

  /** One graded answer as the quiz services store it. */
  datatype QuizAnswer = QuizAnswer(
    questionId: string, selectedAnswer: string, correctAnswer: Option<string>, isCorrect: bool, timeSpent: Option<int>)

  /** The `metadata` dict a coding submission is saved with; a missing key is None. */
  datatype Metadata = Metadata(testResults: Option<seq<CodingEvaluation.TestResult>>,
                               timeComplexity: Option<CodingEvaluation.Complexity>)

  /** The type-specific part of a submission: only quiz and coding submissions carry one. */
  datatype Payload =
    | QuizPayload(answers: seq<QuizAnswer>)
    | CodingPayload(code: Option<string>, problemId: Option<string>, language: Option<string>,
                    testResults: seq<CodingEvaluation.TestResult>, timeComplexity: Option<CodingEvaluation.Complexity>)
    | NoPayload

  datatype Submission = Submission(
    id: string, userId: string, courseId: string, kind: string, score: real, submittedAt: int, payload: Payload)

  /**
   * The document `create_submission` writes: quiz submissions store the answers (an
   * empty list when none are given), coding submissions store the code, problem,
   * language and the metadata's test results and complexity, and no submission
   * stores the other kind's fields.
   */
  function NewSubmission(id: string, userId: string, courseId: string, kind: string, score: real,
                         answers: Option<seq<QuizAnswer>>, code: Option<string>, problemId: Option<string>,
                         language: Option<string>, metadata: Option<Metadata>, now: int): (s: Submission)
    ensures s.id == id && s.userId == userId && s.courseId == courseId && s.kind == kind && s.score == score
    ensures s.submittedAt == now
    ensures s.payload.QuizPayload? <==> kind == "quiz"
    ensures s.payload.CodingPayload? <==> kind == "coding"
    ensures s.payload.QuizPayload? ==> s.payload.answers == answers.GetOr([])
    ensures s.payload.CodingPayload? ==>
      s.payload.code == code && s.payload.problemId == problemId && s.payload.language == language
      && s.payload.testResults == (if metadata.Some? then metadata.value.testResults.GetOr([]) else [])
  {
    var payload :=
      if kind == "quiz" then QuizPayload(answers.GetOr([]))
      else if kind == "coding" then
        CodingPayload(code, problemId, language,
                      if metadata.Some? then metadata.value.testResults.GetOr([]) else [],
                      if metadata.Some? then metadata.value.timeComplexity else None)
      else NoPayload;
    Submission(id, userId, courseId, kind, score, now, payload)
  }

  /** The query filters of `get_user_submissions`: user, course and, when given, the type. */
  predicate Matches(s: Submission, userId: string, courseId: string, kind: Option<string>) {
    s.userId == userId && s.courseId == courseId && (kind.None? || kind.value == "" || s.kind == kind.value)
  }

  /** The matching documents of the stream, in stream order. */
  function Filter(stream: seq<Submission>, userId: string, courseId: string, kind: Option<string>): (r: seq<Submission>)
    ensures |r| <= |stream|
    ensures forall s <- r :: s in stream && Matches(s, userId, courseId, kind)
    ensures forall s <- stream :: Matches(s, userId, courseId, kind) ==> s in r
    ensures forall s :: multiset(r)[s] == if Matches(s, userId, courseId, kind) then multiset(stream)[s] else 0
  {
    if stream == [] then []
    else
      var init := Filter(stream[..|stream| - 1], userId, courseId, kind);
      var last := stream[|stream| - 1];
      assert stream == stream[..|stream| - 1] + [last];
      assert forall s <- stream :: s in stream[..|stream| - 1] || s == last;
      init + (if Matches(last, userId, courseId, kind) then [last] else [])
  }

  /** The first `limit` entries; a zero limit means no limit. */
  function Take(s: seq<Submission>, limit: nat): (r: seq<Submission>)
    ensures limit == 0 || |s| <= limit ==> r == s
    ensures limit > 0 ==> |r| <= limit && r == s[..|r|]
    ensures |r| == if limit == 0 || |s| <= limit then |s| else limit
  {
    if limit == 0 || |s| <= limit then s else s[..limit]
  }

  /** Newest first: submission times never increase along the list. */
  predicate NewestFirst(s: seq<Submission>) {
    forall i, j :: 0 <= i < j < |s| ==> s[i].submittedAt >= s[j].submittedAt
  }

  /** The sort order of `reverse=True` on `submitted_at`: a newer or equally recent submission first. */
  predicate NewerOrSame(a: Submission, b: Submission) {
    a.submittedAt >= b.submittedAt
  }

  /**
   * `results.sort(key=submitted_at, reverse=True)`: the same submissions, newest
   * first.
   */
  function SortNewestFirst(s: seq<Submission>): (r: seq<Submission>)
    ensures NewestFirst(r)
    ensures multiset(r) == multiset(s)
  {
    assert TotalPreorder(NewerOrSame);
    var r := SortBy(s, NewerOrSame);
    assert SortedBy(r, NewerOrSame);
    r
  }

  /**
   * `get_user_submissions`: the store's stream of matching documents, cut to the
   * limit, then sorted newest first.
   */
  function UserSubmissions(stream: seq<Submission>, userId: string, courseId: string, kind: Option<string>, limit: nat)
    : (r: seq<Submission>)
    ensures NewestFirst(r)
    ensures forall s <- r :: s in stream && Matches(s, userId, courseId, kind)
    ensures limit > 0 ==> |r| <= limit
    ensures limit == 0 ==> forall s <- stream :: Matches(s, userId, courseId, kind) ==> s in r
    ensures multiset(r) == multiset(Take(Filter(stream, userId, courseId, kind), limit))
  {
    var matching := Filter(stream, userId, courseId, kind);
    var taken := Take(matching, limit);
    var r := SortNewestFirst(taken);
    assert forall s :: s in r <==> s in multiset(r);
    assert forall s :: s in taken <==> s in multiset(taken);
    r
  }

  /** `get_best_score`: None without submissions, else the highest score among them. */
  function BestScore(subs: seq<Submission>): (r: Option<real>)
    ensures r.None? <==> subs == []
    ensures r.Some? ==> (exists s <- subs :: s.score == r.value) && forall s <- subs :: s.score <= r.value
  {
    if subs == [] then None
    else
      var init := BestScore(subs[..|subs| - 1]);
      var last := subs[|subs| - 1];
      assert forall s <- subs :: s in subs[..|subs| - 1] || s == last;
      if init.None? || last.score >= init.value then Some(last.score) else init
  }

  /**
   * `get_best_score`: the best score among the submissions `get_user_submissions`
   * returns with its default limit of ten. The limit is applied to the stream of
   * matching documents before sorting, so only the first ten of them are looked at;
   * with at most ten matching documents the result is their true maximum.
   */
  function GetBestScore(stream: seq<Submission>, userId: string, courseId: string, kind: Option<string>)
    : (r: Option<real>)
    ensures r.None? <==> forall s <- stream :: !Matches(s, userId, courseId, kind)
    ensures r.Some? ==> exists s <- stream :: Matches(s, userId, courseId, kind) && s.score == r.value
    ensures r.Some? && |Filter(stream, userId, courseId, kind)| <= 10 ==>
      forall s <- stream :: Matches(s, userId, courseId, kind) ==> s.score <= r.value
  {
    var matching := Filter(stream, userId, courseId, kind);
    var taken := Take(matching, 10);
    var subs := UserSubmissions(stream, userId, courseId, kind, 10);
    assert subs == SortNewestFirst(taken);
    assert taken == [] <==> matching == [];
    assert forall x :: x in subs <==> x in multiset(subs);
    assert forall x :: x in taken <==> x in multiset(taken);
    assert subs == [] <==> taken == [] by {
      assert |subs| == |multiset(subs)| == |multiset(taken)| == |taken|;
    }
    assert matching != [] ==> matching[0] in matching;
    BestScore(subs)
  }

  /**
   * A document of `anti_cheat_events`: a violation event or the block document; a
   * field the document does not have is None.
   */
  datatype Event = Event(
    id: string, userId: string, courseId: string, assessmentType: string, eventType: string,
    violationType: Option<string>, timestamp: Option<string>, createdAt: Option<int>,
    violationCount: Option<int>, blockEndTime: Option<int>, blockedAt: Option<int>, isActive: Option<bool>)

  /** The filters of `get_violations` and `clear_violations_and_block`. */
  predicate IsViolationOf(e: Event, userId: string, courseId: string, assessmentType: string) {
    e.userId == userId && e.courseId == courseId && e.assessmentType == assessmentType && e.eventType == "violation"
  }

  /** The block document id `f"{user_id}_{course_id}_{assessment_type}_block"`. */
  function BlockId(userId: string, courseId: string, assessmentType: string): (id: string)
    ensures |id| > |"_block"| && id[|id| - |"_block"|..] == "_block"
  {
    var id := userId + "_" + courseId + "_" + assessmentType + "_block";
    assert id[|id| - |"_block"|..] == "_block";
    id
  }

  const MillisPerMinute: int := 60000

  /** What `get_block_status` reports. */
  datatype BlockStatus =
    | NotBlocked
    | Blocked(blockEndTime: int, timeRemainingMs: int, violationCount: int)

  /** What `create_block` reports. */
  datatype BlockReply = BlockReply(blockEndTime: int, blockDurationMinutes: int)

  /** The block document `create_block` writes: active, ending `minutes` after `now`. */
  function BlockDoc(userId: string, courseId: string, assessmentType: string, minutes: int,
                    violationCount: int, now: int): (e: Event)
    ensures e.id == BlockId(userId, courseId, assessmentType) && e.eventType == "block"
    ensures e.blockEndTime == Some(now + minutes * MillisPerMinute) && e.isActive == Some(true)
    ensures !IsViolationOf(e, userId, courseId, assessmentType)
  {
    Event(BlockId(userId, courseId, assessmentType), userId, courseId, assessmentType, "block", None, None, None,
          Some(violationCount), Some(now + minutes * MillisPerMinute), Some(now), Some(true))
  }

  /** The status `get_block_status` reports for the block document `id` at time `now`. */
  function StatusOf(events: map<string, Event>, id: string, now: int): (s: BlockStatus)
    ensures s.Blocked? <==> id in events && events[id].blockEndTime.Some? && events[id].blockEndTime.value > now
    ensures s.Blocked? ==> s.blockEndTime == events[id].blockEndTime.value && s.timeRemainingMs == s.blockEndTime - now > 0
    ensures s.Blocked? ==> s.violationCount == events[id].violationCount.GetOr(0)
  {
    if id in events && events[id].blockEndTime.Some? && events[id].blockEndTime.value > now then
      var end := events[id].blockEndTime.value;
      Blocked(end, end - now, events[id].violationCount.GetOr(0))
    else NotBlocked
  }

  /** The events after a status check: a block that is no longer in force is marked inactive. */
  function AfterStatusCheck(events: map<string, Event>, id: string, now: int): (r: map<string, Event>)
    ensures r.Keys == events.Keys
    ensures forall k <- events :: k != id ==> r[k] == events[k]
    ensures id in events ==> r[id] == if StatusOf(events, id, now).Blocked? then events[id]
                                     else events[id].(isActive := Some(false))
  {
    if id in events && StatusOf(events, id, now).NotBlocked? then events[id := events[id].(isActive := Some(false))]
    else events
  }

  /** A block written at `created` for `minutes` is reported in force exactly before it ends. */
  lemma BlockedUntilEnd(events: map<string, Event>, userId: string, courseId: string, assessmentType: string,
                        minutes: int, violationCount: int, created: int, now: int)
    ensures var id := BlockId(userId, courseId, assessmentType);
      var s := StatusOf(events[id := BlockDoc(userId, courseId, assessmentType, minutes, violationCount, created)], id, now);
      (s.Blocked? <==> now < created + minutes * MillisPerMinute)
      && (s.Blocked? ==> s.timeRemainingMs == created + minutes * MillisPerMinute - now && s.violationCount == violationCount)
  {
  }

  class AssessmentRepository {
    var submissions: map<string, Submission>
    var events: map<string, Event>

    constructor()
      ensures submissions == map[] && events == map[]
    {
      submissions := map[];
      events := map[];
    }

    /** `create_submission` with the fresh id `id`. */
    method CreateSubmission(id: string, userId: string, courseId: string, kind: string, score: real,
                            answers: Option<seq<QuizAnswer>>, code: Option<string>, problemId: Option<string>,
                            language: Option<string>, metadata: Option<Metadata>, now: int)
      returns (data: Submission)
      modifies this
      ensures data == NewSubmission(id, userId, courseId, kind, score, answers, code, problemId, language, metadata, now)
      ensures submissions == old(submissions)[id := data] && events == old(events)
    {
      data := NewSubmission(id, userId, courseId, kind, score, answers, code, problemId, language, metadata, now);
      submissions := submissions[id := data];
    }

    /** `record_violation` with the fresh id `eventId`; the timestamp defaults to the current time. */
    method RecordViolation(eventId: string, userId: string, courseId: string, assessmentType: string,
                           violationType: string, timestamp: Option<string>, nowIso: string, now: int)
      returns (data: Event)
      modifies this
      ensures IsViolationOf(data, userId, courseId, assessmentType) && data.id == eventId
      ensures data.timestamp == Some(if timestamp.Some? && timestamp.value != "" then timestamp.value else nowIso)
      ensures events == old(events)[eventId := data] && submissions == old(submissions)
    {
      var stamp := if timestamp.Some? && timestamp.value != "" then timestamp.value else nowIso;
      data := Event(eventId, userId, courseId, assessmentType, "violation", Some(violationType), Some(stamp),
                    Some(now), None, None, None, None);
      events := events[eventId := data];
    }

    /** The ids of the violation events of one (user, course, type). */
    function ViolationIds(userId: string, courseId: string, assessmentType: string): (ids: set<string>)
      reads this
      ensures forall id :: id in ids <==> id in events && IsViolationOf(events[id], userId, courseId, assessmentType)
    {
      set id | id in events && IsViolationOf(events[id], userId, courseId, assessmentType)
    }

    /** `create_block`: the block document, active, ending `minutes` after now. */
    method CreateBlock(userId: string, courseId: string, assessmentType: string, minutes: int,
                       violationCount: int, now: int)
      returns (reply: BlockReply)
      modifies this
      ensures reply == BlockReply(now + minutes * MillisPerMinute, minutes)
      ensures events == old(events)[BlockId(userId, courseId, assessmentType) :=
        BlockDoc(userId, courseId, assessmentType, minutes, violationCount, now)]
      ensures submissions == old(submissions)
    {
      var block := BlockDoc(userId, courseId, assessmentType, minutes, violationCount, now);
      events := events[block.id := block];
      reply := BlockReply(now + minutes * MillisPerMinute, minutes);
    }

    /**
     * `get_block_status`: blocked while the block's end time is in the future, with
     * the remaining milliseconds; an expired or end-less block is marked inactive.
     */
    method GetBlockStatus(userId: string, courseId: string, assessmentType: string, now: int)
      returns (status: BlockStatus)
      modifies this
      ensures status == StatusOf(old(events), BlockId(userId, courseId, assessmentType), now)
      ensures events == AfterStatusCheck(old(events), BlockId(userId, courseId, assessmentType), now)
      ensures submissions == old(submissions)
    {
      var id := BlockId(userId, courseId, assessmentType);
      if id !in events {
        return NotBlocked;
      }
      var block := events[id];
      if block.blockEndTime.Some? && block.blockEndTime.value > now {
        var end := block.blockEndTime.value;
        status := Blocked(end, end - now, block.violationCount.GetOr(0));
      } else {
        events := events[id := block.(isActive := Some(false))];
        status := NotBlocked;
      }
    }

    /**
     * `clear_violations_and_block`: every violation event of the (user, course, type)
     * is deleted one by one and counted, then the block document is deleted.
     */
    method ClearViolationsAndBlock(userId: string, courseId: string, assessmentType: string)
      returns (deleted: nat)
      modifies this
      ensures deleted == |old(ViolationIds(userId, courseId, assessmentType))|
      ensures events == old(events) - old(ViolationIds(userId, courseId, assessmentType))
                                    - {BlockId(userId, courseId, assessmentType)}
      ensures submissions == old(submissions)
    {
      var pending := ViolationIds(userId, courseId, assessmentType);
      ghost var removed: set<string> := {};
      ghost var start := events;
      deleted := 0;
      while pending != {}
        invariant removed + pending == old(ViolationIds(userId, courseId, assessmentType))
        invariant removed !! pending
        invariant events == start - removed
        invariant deleted == |removed|
        invariant submissions == old(submissions)
        decreases |pending|
      {
        var id :| id in pending;
        events := events - {id};
        removed := removed + {id};
        pending := pending - {id};
        deleted := deleted + 1;
      }
      events := events - {BlockId(userId, courseId, assessmentType)};
    }
  }
}
