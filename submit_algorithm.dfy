/** The algorithm-submission pipeline of the protocol
    (tig-protocol/src/submit_algorithm.rs): a short-circuiting chain of checks
    against the latest block and the ledger, and only when every check passes,
    an insert into the mempool.

    A business error is reported to the submitter and leaves the ledger as it
    was.  A gateway failure other than a missing transaction, or a missing
    latest block, makes the pipeline panic; that is the outcome `Panic` here. */
module SubmitAlgorithm {
  import opened Context

  datatype ProtocolError =
    | InvalidChallenge(challengeId: string)
    | DuplicateTransaction(txHash: string)
    | InvalidTransaction(txHash: string)
    | InvalidTransactionSender(txHash: string, expectedSender: string, actualSender: string)
    | InvalidTransactionReceiver(txHash: string, expectedReceiver: string, actualReceiver: string)
    | InvalidTransactionAmount(txHash: string, expectedAmount: nat, actualAmount: nat)

  /** `ProtocolResult<T>` with the pipeline's panic as an outcome of its own. */
  datatype Submission<T> = Done(value: T) | Refused(error: ProtocolError) | Panic(message: string)

  // ---------------------------------------------------------------------------
  // The checks, stated on the ledger's contents.

  /** Position `k` holds the first stored challenge with id `id`, the one
      `get_challenges(Id)` hands back first. */
  predicate FirstWithId(challenges: seq<ChallengeEntry>, id: string, k: nat) {
    k < |challenges| && challenges[k].id == id && forall j :: 0 <= j < k ==> challenges[j].id != id
  }

  /** The first challenge with that id has a state whose `round_active` is
      set and not after `round`. */
  predicate ChallengeOpen(challenges: seq<ChallengeEntry>, id: string, round: nat) {
    exists k: nat :: k < |challenges| && FirstWithId(challenges, id, k) && challenges[k].state.Some? &&
      challenges[k].state.value.roundActive.Some? && challenges[k].state.value.roundActive.value <= round
  }

  /** The first challenge with that id is still in the mempool: it has no
      state to read `round_active` from. */
  predicate ChallengeStateless(challenges: seq<ChallengeEntry>, id: string) {
    exists k: nat :: k < |challenges| && FirstWithId(challenges, id, k) && challenges[k].state.None?
  }

  /** Some stored algorithm already paid with this transaction. */
  predicate TxUsed(algorithms: seq<AlgorithmEntry>, txHash: string) {
    exists k :: 0 <= k < |algorithms| && algorithms[k].details.txHash == txHash
  }

  function LatestBlock(ctx: Ledger): Block
    reads ctx
    requires ctx.blocks != []
  {
    ctx.blocks[|ctx.blocks| - 1]
  }

  /** One check of the pipeline: whether it passes, and the error it reports
      when it does not. */
  datatype Check = Check(passes: bool, error: ProtocolError)

  /** The challenge check. */
  function ChallengeCheck(ctx: Ledger, details: AlgorithmDetails): Check
    reads ctx
    requires ctx.blocks != []
  {
    Check(ChallengeOpen(ctx.challenges, details.challengeId, LatestBlock(ctx).details.round),
          InvalidChallenge(details.challengeId))
  }

  /** The fee checks in order: the payment is unused, the transaction is
      known, then its sender, receiver and amount, each with the expected and
      the actual value. */
  function FeeChecks(ctx: Ledger, player: Player, details: AlgorithmDetails): seq<Check>
    reads ctx
    requires ctx.blocks != []
  {
    var h := details.txHash;
    var config := LatestBlock(ctx).config;
    var known := "get_transaction" !in ctx.faults && h in ctx.transactions;
    var tx := if h in ctx.transactions then ctx.transactions[h] else Transaction("", "", 0);
    [Check(!TxUsed(ctx.algorithms, h), DuplicateTransaction(h)),
     Check(known, InvalidTransaction(h)),
     Check(tx.sender == player.id, InvalidTransactionSender(h, player.id, tx.sender)),
     Check(tx.receiver == config.erc20.burnAddress, InvalidTransactionReceiver(h, config.erc20.burnAddress, tx.receiver)),
     Check(tx.amount == config.algorithmSubmissions.submissionFee,
           InvalidTransactionAmount(h, config.algorithmSubmissions.submissionFee, tx.amount))]
  }

  /** All checks of the pipeline, in the order it runs them. */
  function Checks(ctx: Ledger, player: Player, details: AlgorithmDetails): seq<Check>
    reads ctx
    requires ctx.blocks != []
  {
    [ChallengeCheck(ctx, details)] + FeeChecks(ctx, player, details)
  }

  /** The error of the first check that fails, if any. */
  function FirstFailure(checks: seq<Check>): (r: Option<ProtocolError>)
    ensures r.None? <==> forall k :: 0 <= k < |checks| ==> checks[k].passes
    ensures r.Some? ==> (exists k :: 0 <= k < |checks| && !checks[k].passes && checks[k].error == r.value &&
                                 (forall j :: 0 <= j < k ==> checks[j].passes))
  {
    if checks == [] then None
    else if !checks[0].passes then Some(checks[0].error)
    else
      var r := FirstFailure(checks[1..]);
      assert forall k :: 1 <= k < |checks| ==> checks[k] == checks[1..][k - 1];
      if r.Some? then
        var k :| 0 <= k < |checks[1..]| && !checks[1..][k].passes && checks[1..][k].error == r.value &&
          forall j :: 0 <= j < k ==> checks[1..][j].passes;
        assert !checks[k + 1].passes && forall j :: 0 <= j < k + 1 ==> checks[j].passes;
        r
      else r
  }

  /** The pipeline panics: the latest block cannot be read, the challenges
      cannot be read or the one named has no state, or, past the challenge
      check, the algorithms cannot be read. */
  predicate Panics(ctx: Ledger, details: AlgorithmDetails)
    reads ctx
  {
    "get_block" in ctx.faults || ctx.blocks == [] || "get_challenges" in ctx.faults ||
    ChallengeStateless(ctx.challenges, details.challengeId) ||
    (ChallengeOpen(ctx.challenges, details.challengeId, LatestBlock(ctx).details.round) && "get_algorithms" in ctx.faults)
  }

  // ---------------------------------------------------------------------------
  // The pipeline.

  /** `verify_challenge_exists`: the first challenge with the submitted id
      must be active by the latest block's round. */
  function VerifyChallengeExists(ctx: Ledger, details: AlgorithmDetails): (r: Submission<()>)
    reads ctx
    ensures r.Panic? <==> ("get_block" in ctx.faults || ctx.blocks == [] || "get_challenges" in ctx.faults ||
      ChallengeStateless(ctx.challenges, details.challengeId))
    ensures !r.Panic? ==> (r.Done? <==> ChallengeCheck(ctx, details).passes)
    ensures r.Refused? ==> r.error == InvalidChallenge(details.challengeId)
  {
    match ctx.GetBlock(BlockFilter.Latest, false)
    case Err(e) => Panic("get_block error: " + e)
    case Ok(None) => Panic("Expecting latest block to exist")
    case Ok(Some(latest)) =>
      match ctx.GetChallenges(ChallengesFilter.Id(details.challengeId), None)
      case Err(e) => Panic("get_challenges error: " + e)
      case Ok(found) =>
        ReadFirst(ctx.challenges, e => ChallengeMatches(ChallengesFilter.Id(details.challengeId), e), None, false);
        if found != [] && found[0].state.None? then Panic("challenge without state")
        else if found != [] && found[0].state.value.roundActive.Some? &&
                found[0].state.value.roundActive.value <= latest.details.round then Done(())
        else Refused(InvalidChallenge(details.challengeId))
  }

  /** `verify_submission_fee`: the payment must be unused, known to the
      chain, sent by the player to the burn address, and exactly the
      submission fee; the first of these that fails is reported. */
  function VerifySubmissionFee(ctx: Ledger, player: Player, details: AlgorithmDetails): (r: Submission<()>)
    reads ctx
    ensures r.Panic? <==> "get_block" in ctx.faults || ctx.blocks == [] || "get_algorithms" in ctx.faults
    ensures !r.Panic? ==> (r.Done? <==> FirstFailure(FeeChecks(ctx, player, details)).None?)
    ensures r.Refused? ==> FirstFailure(FeeChecks(ctx, player, details)) == Some(r.error)
  {
    var h := details.txHash;
    match ctx.GetBlock(BlockFilter.Latest, false)
    case Err(e) => Panic("get_block error: " + e)
    case Ok(None) => Panic("No latest block found")
    case Ok(Some(block)) =>
      match ctx.GetAlgorithms(AlgorithmsFilter.TxHash(h), None, false)
      case Err(e) => Panic("get_algorithms error: " + e)
      case Ok(found) =>
        assert found != [] <==> TxUsed(ctx.algorithms, h) by {
          if found != [] {
            assert found[0] in found;
          }
        }
        if found != [] then Refused(DuplicateTransaction(h))
        else match ctx.GetTransaction(h)
          case Err(_) => Refused(InvalidTransaction(h))
          case Ok(tx) =>
            var burn := block.config.erc20.burnAddress;
            var fee := block.config.algorithmSubmissions.submissionFee;
            var checks := FeeChecks(ctx, player, details);
            if player.id != tx.sender then
              FailureReported(checks, 2);
              Refused(InvalidTransactionSender(h, player.id, tx.sender))
            else if tx.receiver != burn then
              FailureReported(checks, 3);
              Refused(InvalidTransactionReceiver(h, burn, tx.receiver))
            else if tx.amount != fee then
              FailureReported(checks, 4);
              Refused(InvalidTransactionAmount(h, fee, tx.amount))
            else Done(())
  }

  /** `execute`: the challenge check, then the fee checks, then the insert.
      The outcome is a panic when the gateway fails (the insert included),
      otherwise the error of the first check that fails, otherwise the id of
      the new algorithm.  Only the last case changes the ledger: it appends
      the algorithm, without state, under a new id. */
  method Execute(ctx: Ledger, player: Player, details: AlgorithmDetails, code: string) returns (r: Submission<string>)
    modifies ctx
    ensures old(Panics(ctx, details)) ==> r.Panic? && ctx.Snapshot() == old(ctx.Snapshot())
    ensures !old(Panics(ctx, details)) ==> var failure := old(FirstFailure(Checks(ctx, player, details)));
      (failure.Some? ==> r == Refused(failure.value) && ctx.Snapshot() == old(ctx.Snapshot())) &&
      (failure.None? && "add_algorithm_to_mempool" in old(ctx.faults) ==> r.Panic? && ctx.Snapshot() == old(ctx.Snapshot())) &&
      (failure.None? && "add_algorithm_to_mempool" !in old(ctx.faults) ==> (r.Done? && r.value !in Ids(old(ctx.algorithms)) &&
         ctx.Snapshot() == old(ctx.Snapshot()).(algorithms := old(ctx.algorithms) + [Entry(r.value, details, None, map[], code)])))
  {
    var challenge := VerifyChallengeExists(ctx, details);
    if challenge.Panic? {
      return Panic(challenge.message);
    } else if challenge.Refused? {
      return Refused(challenge.error);
    }
    var fee := VerifySubmissionFee(ctx, player, details);
    if fee.Panic? {
      return Panic(fee.message);
    } else if fee.Refused? {
      return Refused(fee.error);
    }
    var added := ctx.AddAlgorithmToMempool(details, code);
    if added.Err? {
      return Panic("add_algorithm_to_mempool error: " + added.error);
    }
    return Done(added.value);
  }

  // ---------------------------------------------------------------------------
  // Properties of the check order.

  /** A check that fails after checks that all pass is the one reported,
      whatever the checks after it say. */
  lemma {:induction false} FailureReported(checks: seq<Check>, k: nat)
    requires k < |checks| && !checks[k].passes
    requires forall j :: 0 <= j < k ==> checks[j].passes
    ensures FirstFailure(checks) == Some(checks[k].error)
  {
    if k > 0 {
      assert forall j :: 0 <= j < k - 1 ==> checks[1..][j] == checks[j + 1];
      FailureReported(checks[1..], k - 1);
    }
  }

  /** With exactly one field of the submission wrong, exactly that error is
      reported: the pipeline's checks cannot mask one another. */
  lemma ExactlyOneWrongField(ctx: Ledger, player: Player, details: AlgorithmDetails, k: nat)
    requires ctx.blocks != [] && k < 6
    requires !Checks(ctx, player, details)[k].passes
    requires forall j :: 0 <= j < 6 && j != k ==> Checks(ctx, player, details)[j].passes
    ensures FirstFailure(Checks(ctx, player, details)) == Some(Checks(ctx, player, details)[k].error)
  {
    FailureReported(Checks(ctx, player, details), k);
  }

  /** An open challenge and a used payment give `DuplicateTransaction`
      whatever the transaction itself says. */
  lemma DuplicateWhateverTheTransaction(ctx: Ledger, player: Player, details: AlgorithmDetails)
    requires ctx.blocks != []
    requires ChallengeOpen(ctx.challenges, details.challengeId, LatestBlock(ctx).details.round)
    requires TxUsed(ctx.algorithms, details.txHash)
    ensures FirstFailure(Checks(ctx, player, details)) == Some(DuplicateTransaction(details.txHash))
  {
    var checks := Checks(ctx, player, details);
    assert checks[0].passes && !checks[1].passes;
  }

  /** A closed challenge is reported before anything about the payment. */
  lemma ClosedChallengeFirst(ctx: Ledger, player: Player, details: AlgorithmDetails)
    requires ctx.blocks != []
    requires !ChallengeOpen(ctx.challenges, details.challengeId, LatestBlock(ctx).details.round)
    ensures FirstFailure(Checks(ctx, player, details)) == Some(InvalidChallenge(details.challengeId))
  {
    assert !Checks(ctx, player, details)[0].passes;
  }

  /** Submitting twice with the same payment: once the first submission is
      accepted, the second is refused as a duplicate, whatever else it says. */
  method SubmitTwice(ctx: Ledger, player: Player, details: AlgorithmDetails, code: string,
                     player': Player, details': AlgorithmDetails, code': string)
    returns (first: Submission<string>, second: Submission<string>)
    requires details'.txHash == details.txHash && details'.challengeId == details.challengeId
    modifies ctx
    ensures first.Done? ==> second == Refused(DuplicateTransaction(details.txHash))
  {
    first := Execute(ctx, player, details, code);
    ghost var added := |ctx.algorithms| - 1;
    if first.Done? {
      assert ctx.algorithms[added].details.txHash == details.txHash;
      assert TxUsed(ctx.algorithms, details'.txHash);
      DuplicateWhateverTheTransaction(ctx, player', details');
    }
    second := Execute(ctx, player', details', code');
  }
}
