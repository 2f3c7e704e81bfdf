/**
 * The anti-cheat service: a reported violation is recorded first and then counted,
 * and the count decides the block: 3 or more violations block for 15 minutes, 5 or
 * more for 30 and 7 or more for 60.
 */
module AntiCheat {
  import opened Prelude
  import opened AssessmentRepo

  /** The block length for a violation count; 0 means no block. */
  function BlockMinutes(count: nat): (m: nat)
    ensures m == 0 <==> count < 3
    ensures m == 0 || m == 15 || m == 30 || m == 60
    ensures m == 60 <==> count >= 7
  {
    if count >= 7 then 60
    else if count >= 5 then 30
    else if count >= 3 then 15
    else 0
  }

  /** More violations never shorten the block. */
  lemma BlockMinutesMonotone(a: nat, b: nat)
    requires a <= b
    ensures BlockMinutes(a) <= BlockMinutes(b)
  {
  }

  /** The documented progression: 2 → none, 3 → 15, 5 → 30, 7 → 60 minutes. */
  lemma BlockProgression()
    ensures BlockMinutes(2) == 0 && BlockMinutes(3) == 15 && BlockMinutes(4) == 15
    ensures BlockMinutes(5) == 30 && BlockMinutes(6) == 30 && BlockMinutes(7) == 60 && BlockMinutes(10) == 60
  {
  }

  /**
   * `report_violation`: record the violation (id `eventId`), count the violations
   * of the (user, course, type) including the new one, and write a block of the
   * length that count calls for. The recorded event is returned, not the block.
   */
  method ReportViolation(repo: AssessmentRepository, eventId: string, userId: string, courseId: string,
                         assessmentType: string, violationType: string, timestamp: Option<string>,
                         nowIso: string, now: int)
    returns (result: Event)
    modifies repo
    ensures IsViolationOf(result, userId, courseId, assessmentType) && result.id == eventId
    ensures var count := |old(repo.ViolationIds(userId, courseId, assessmentType)) + {eventId}|;
      var recorded := old(repo.events)[eventId := result];
      repo.events == if BlockMinutes(count) == 0 then recorded
                     else recorded[BlockId(userId, courseId, assessmentType) :=
                            BlockDoc(userId, courseId, assessmentType, BlockMinutes(count), count, now)]
    ensures repo.submissions == old(repo.submissions)
  {
    ghost var before := repo.ViolationIds(userId, courseId, assessmentType);
    result := repo.RecordViolation(eventId, userId, courseId, assessmentType, violationType, timestamp, nowIso, now);
    var violations := repo.ViolationIds(userId, courseId, assessmentType);
    assert violations == before + {eventId};
    var count := |violations|;
    var minutes := BlockMinutes(count);
    if minutes > 0 {
      var _ := repo.CreateBlock(userId, courseId, assessmentType, minutes, count, now);
    }
  }

  /** What `get_status` reports: the violations, their number and the block status. */
  datatype Status = Status(violations: set<string>, violationCount: int, block: BlockStatus)

  /**
   * `get_status`: the violation count is the number of violations listed, except
   * while a block is in force, when the block's own `violation_count` key is merged
   * in last and replaces it.
   */
  method GetStatus(repo: AssessmentRepository, userId: string, courseId: string, assessmentType: string, now: int)
    returns (status: Status)
    modifies repo
    ensures status.violations == old(repo.ViolationIds(userId, courseId, assessmentType))
    ensures status.block == StatusOf(old(repo.events), BlockId(userId, courseId, assessmentType), now)
    ensures status.block.NotBlocked? ==> status.violationCount == |status.violations|
    ensures status.block.Blocked? ==>
      status.violationCount == old(repo.events)[BlockId(userId, courseId, assessmentType)].violationCount.GetOr(0)
    ensures repo.events == AfterStatusCheck(old(repo.events), BlockId(userId, courseId, assessmentType), now)
    ensures repo.submissions == old(repo.submissions)
  {
    var violations := repo.ViolationIds(userId, courseId, assessmentType);
    var block := repo.GetBlockStatus(userId, courseId, assessmentType, now);
    var count := if block.Blocked? then block.violationCount else |violations|;
    status := Status(violations, count, block);
  }

  /** `clear_violations`: delegates to the repository. */
  method ClearViolations(repo: AssessmentRepository, userId: string, courseId: string, assessmentType: string)
    returns (cleared: nat)
    modifies repo
    ensures cleared == |old(repo.ViolationIds(userId, courseId, assessmentType))|
    ensures repo.events == old(repo.events) - old(repo.ViolationIds(userId, courseId, assessmentType))
                                            - {BlockId(userId, courseId, assessmentType)}
  {
    cleared := repo.ClearViolationsAndBlock(userId, courseId, assessmentType);
  }
}
