/**
 * The on-chain certificate program: `mint_certificate` checks the two scores,
 * computes the final score in 16-bit arithmetic and fills the certificate account;
 * `verify_certificate` rejects a revoked certificate. Unsigned integer widths are
 * newtypes, so every conversion and every operation is checked against its range.
 */
module Certificate {

  newtype u8 = x: int | 0 <= x < 0x100
  newtype u16 = x: int | 0 <= x < 0x1_0000

  /** A 32-byte account address. */
  datatype Pubkey = Pubkey(bytes: seq<u8>)

  /** The program's error codes. */
  datatype ErrorCode = InsufficientQuizScore | InsufficientCompletion | CertificateRevoked

  /** The message attached to each error code. */
  function Message(e: ErrorCode): string {
    match e
    case InsufficientQuizScore => "Quiz score must be at least 85%"
    case InsufficientCompletion => "Course completion must be at least 90%"
    case CertificateRevoked => "Certificate has been revoked"
  }

  /** The outcome of an instruction: done, or failed with an error code. */
  datatype Outcome = Done | Failed(code: ErrorCode)

  const MinQuizScore: u8 := 85
  const MinCompletion: u8 := 90

  /** Which guard of `mint_certificate` stops it, if any; the quiz score is checked first. */
  function MintOutcome(quizScore: u8, completion: u8): (o: Outcome)
    ensures o == Failed(InsufficientQuizScore) <==> quizScore < 85
    ensures o == Failed(InsufficientCompletion) <==> quizScore >= 85 && completion < 90
    ensures o == Done <==> quizScore >= 85 && completion >= 90
  {
    if quizScore < MinQuizScore then Failed(InsufficientQuizScore)
    else if completion < MinCompletion then Failed(InsufficientCompletion)
    else Done
  }

  /**
   * `((quiz as u16 * 70 + completion as u16 * 30) / 100) as u8`: the weighted score,
   * rounded down; for any two bytes no step leaves 16 bits and the result fits a byte.
   */
  function FinalScore(quizScore: u8, completion: u8): (f: u8)
    ensures f as int == (70 * quizScore as int + 30 * completion as int) / 100
  {
    ((quizScore as u16 * 70 + completion as u16 * 30) / 100) as u8
  }

  /** The final score lies between the two scores it weighs. */
  lemma FinalScoreBetween(quizScore: u8, completion: u8)
    ensures FinalScore(quizScore, completion) >= if quizScore <= completion then quizScore else completion
    ensures FinalScore(quizScore, completion) <= if quizScore >= completion then quizScore else completion
  {
    var q, c := quizScore as int, completion as int;
    var lo := if q <= c then q else c;
    var hi := if q >= c then q else c;
    assert 100 * lo <= 70 * q + 30 * c <= 100 * hi;
  }

  /** Any certificate that passes the guards has a final score of at least 86. */
  lemma MintedFinalAtLeast86(quizScore: u8, completion: u8)
    requires MintOutcome(quizScore, completion) == Done
    ensures FinalScore(quizScore, completion) >= 86
  {
  }

  /** The program's own test cases: (85, 90) gives 86, (100, 100) gives 100 and (95, 90) gives 93. */
  lemma FinalScoreLowestPass()
    ensures FinalScore(85, 90) == 86
  {
    assert (70 * 85 + 30 * 90) / 100 == 86;
  }

  lemma FinalScorePerfect()
    ensures FinalScore(100, 100) == 100
  {
    assert (70 * 100 + 30 * 100) / 100 == 100;
  }

  lemma FinalScoreRoundsDown()
    ensures FinalScore(95, 90) == 93
  {
    assert (70 * 95 + 30 * 90) / 100 == 93;
  }

  /** The reserved size of a certificate account after its 8-byte discriminator. */
  const Size: nat := 32 + 36 + 68 + 1 + 1 + 1 + 32 + 8 + 1

  /**
   * The serialized length of a certificate: keys, length-prefixed ids, three bytes,
   * timestamp, flag. Each id counts one byte per character, as an ASCII id takes.
   */
  function SerializedSize(courseId: string, userId: string): (n: nat)
    ensures n == 84 + |courseId| + |userId|
  {
    32 + (4 + |courseId|) + (4 + |userId|) + 1 + 1 + 1 + 32 + 8 + 1
  }

  /**
   * The reserved space holds the stored ids exactly when together they have at most
   * 96 characters; the reservation of 32 and 64 is one such split.
   */
  lemma AccountFits(courseId: string, userId: string)
    ensures SerializedSize(courseId, userId) <= Size <==> |courseId| + |userId| <= 96
    ensures |courseId| <= 32 && |userId| <= 64 ==> SerializedSize(courseId, userId) <= Size
  {
  }

  /** A certificate account. */
  class CertificateAccount {
    var owner: Pubkey
    var courseId: string
    var userId: string
    var quizScore: u8
    var completionPercentage: u8
    var finalScore: u8
    var mintAddress: Pubkey
    var mintedAt: int
    var isRevoked: bool

    /** A freshly allocated account, all zero. */
    constructor()
      ensures owner == Pubkey([]) && courseId == "" && userId == "" && !isRevoked
      ensures quizScore == 0 && completionPercentage == 0 && finalScore == 0 && mintedAt == 0
    {
      owner := Pubkey([]);
      courseId := "";
      userId := "";
      quizScore := 0;
      completionPercentage := 0;
      finalScore := 0;
      mintAddress := Pubkey([]);
      mintedAt := 0;
      isRevoked := false;
    }

    /**
     * `mint_certificate` on this account: a failed guard reverts the instruction and
     * leaves the account as it was; otherwise the account records the recipient, the
     * ids, both scores, the final score, the mint and the clock's time, not revoked.
     */
    method MintCertificate(recipient: Pubkey, mint: Pubkey, course: string, user: string,
                           quiz: u8, completion: u8, now: int)
      returns (o: Outcome)
      modifies this
      ensures o == MintOutcome(quiz, completion)
      ensures o.Failed? ==> unchanged(this)
      ensures o.Done? ==> owner == recipient && courseId == course && userId == user && mintAddress == mint
      ensures o.Done? ==> quizScore == quiz && completionPercentage == completion && mintedAt == now
      ensures o.Done? ==> finalScore == FinalScore(quiz, completion) && !isRevoked
    {
      if quiz < MinQuizScore {
        return Failed(InsufficientQuizScore);
      }
      if completion < MinCompletion {
        return Failed(InsufficientCompletion);
      }
      var f := ((quiz as u16 * 70 + completion as u16 * 30) / 100) as u8;
      owner := recipient;
      courseId := course;
      userId := user;
      quizScore := quiz;
      completionPercentage := completion;
      finalScore := f;
      mintAddress := mint;
      mintedAt := now;
      isRevoked := false;
      return Done;
    }

    /** `verify_certificate`: fails exactly for a revoked certificate. */
    function VerifyCertificate(): (o: Outcome)
      reads this
      ensures o == Failed(CertificateRevoked) <==> isRevoked
      ensures o == Done <==> !isRevoked
    {
      if isRevoked then Failed(CertificateRevoked) else Done
    }
  }

  /** A certificate just minted verifies. */
  method MintThenVerify(account: CertificateAccount, recipient: Pubkey, mint: Pubkey, course: string,
                        user: string, quiz: u8, completion: u8, now: int)
    returns (minted: Outcome, verified: Outcome)
    modifies account
    ensures minted == MintOutcome(quiz, completion)
    ensures minted.Done? ==> verified == Done
  {
    minted := account.MintCertificate(recipient, mint, course, user, quiz, completion, now);
    verified := account.VerifyCertificate();
  }
}
