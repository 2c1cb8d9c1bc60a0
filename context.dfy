/** The ledger gateway of the protocol (tig-protocol/src/context.rs): the only
    way the protocol reads or changes persisted state.  Reads go through closed
    filter datatypes, inserts put new entities into the mempool, and updates
    overwrite an entity's lifecycle state or its data for one block.  Every
    operation is fallible at the infrastructure level: the ledger keeps, per
    operation name, the fault it currently reports, and an operation with a
    fault answers `Err` and changes nothing.

    The trait fixes only the interface; what a filter selects is this model's
    reading of it: an entity is in the mempool while it has no state and
    confirmed once it has one, and `from_block_started` keeps the entities
    whose precommit started at or after that block. */
module Context {
  datatype Option<T> = None | Some(value: T)

  /** `ContextResult<T>`: an infrastructure failure is an outcome of its own,
      distinct from an empty or absent answer. */
  datatype ContextResult<T> = Ok(value: T) | Err(error: string)

  /** The inner `anyhow::Result` of a verification or computation: the
      engine's verdict, as opposed to the gateway failing to ask it. */
  datatype Outcome<T> = Success(output: T) | Failure(reason: string)

  // ---------------------------------------------------------------------------
  // Entities.  Amounts (`PreciseNumber`) are naturals.

  datatype AlgorithmDetails = AlgorithmDetails(name: string, playerId: string, challengeId: string, txHash: string)
  datatype AlgorithmState = AlgorithmState(blockConfirmed: nat, roundSubmitted: nat, roundPushed: Option<nat>,
                                           roundMerged: Option<nat>, banned: bool)
  datatype AlgorithmBlockData = AlgorithmBlockData(adoption: nat, mergePoints: nat, reward: nat, roundEarnings: nat)

  datatype ChallengeDetails = ChallengeDetails(name: string)
  datatype ChallengeState = ChallengeState(blockConfirmed: nat, roundActive: Option<nat>)
  datatype ChallengeBlockData = ChallengeBlockData(solutionSignatureThreshold: nat, numQualifiers: nat)

  datatype BenchmarkSettings = BenchmarkSettings(playerId: string, blockId: string, challengeId: string,
                                                 algorithmId: string, difficulty: seq<int>)
  datatype BenchmarkDetails = BenchmarkDetails(numSolutions: nat, merkleRoot: Option<string>)
  datatype BenchmarkState = BenchmarkState(blockConfirmed: nat, sampledNonces: seq<nat>)

  datatype PrecommitDetails = PrecommitDetails(blockStarted: nat, numNonces: Option<nat>, feePaid: Option<nat>)
  datatype PrecommitState = PrecommitState(blockConfirmed: nat, randHash: Option<string>)

  datatype OutputData = OutputData(nonce: nat, runtimeSignature: nat, fuelConsumed: nat, solution: string)
  datatype MerkleProof = MerkleProof(leaf: OutputData, branch: Option<string>)
  datatype ProofState = ProofState(blockConfirmed: nat, submissionDelay: nat)

  datatype FraudState = FraudState(blockConfirmed: nat)

  datatype PlayerDetails = PlayerDetails(name: string, isMultisig: bool)
  datatype PlayerState = PlayerState(totalFeesPaid: nat, availableFeeBalance: nat)
  datatype PlayerBlockData = PlayerBlockData(deposit: Option<nat>, reward: Option<nat>, roundEarnings: nat)

  datatype TopUpDetails = TopUpDetails(playerId: string, amount: nat)
  datatype TopUpState = TopUpState(blockConfirmed: nat)

  datatype WasmDetails = WasmDetails(compileSuccess: bool, downloadUrl: Option<string>, checksum: Option<string>)
  datatype WasmState = WasmState(blockConfirmed: nat)

  datatype Erc20Config = Erc20Config(burnAddress: string)
  datatype AlgorithmSubmissionsConfig = AlgorithmSubmissionsConfig(submissionFee: nat)
  datatype ProtocolConfig = ProtocolConfig(erc20: Erc20Config, algorithmSubmissions: AlgorithmSubmissionsConfig)

  datatype BlockDetails = BlockDetails(prevBlockId: string, height: nat, round: nat)
  datatype BlockData = BlockData(confirmedChallengeIds: set<string>, confirmedAlgorithmIds: set<string>,
                                 activeChallengeIds: set<string>, activeAlgorithmIds: set<string>)
  datatype Block = Block(id: string, details: BlockDetails, config: ProtocolConfig, data: Option<BlockData>)

  /** An ERC20 transfer on the external chain, looked up by its hash. */
  datatype Transaction = Transaction(sender: string, receiver: string, amount: nat)

  datatype WasmVMConfig = WasmVMConfig(maxMemory: nat, maxFuel: nat)

  /** A solution is opaque to the gateway. */
  type Solution = string

  /** A stored entity: its id, details, lifecycle state (absent while it sits
      in the mempool), its data per block id, and a payload (code, solution
      nonces, proofs, allegation, settings) handed back only on request. */
  datatype Entry<D, S, B, P> = Entry(id: string, details: D, state: Option<S>, blockData: map<string, B>, payload: P)

  /** An entity as a read hands it back: the data of the one block asked for
      and the payload when asked for. */
  datatype Record<D, S, B, P> = Record(id: string, details: D, state: Option<S>, blockData: Option<B>, payload: Option<P>)

  type AlgorithmEntry = Entry<AlgorithmDetails, AlgorithmState, AlgorithmBlockData, string>
  type BenchmarkEntry = Entry<BenchmarkDetails, BenchmarkState, (), set<nat>>
  type ChallengeEntry = Entry<ChallengeDetails, ChallengeState, ChallengeBlockData, ()>
  type FraudEntry = Entry<(), FraudState, (), string>
  type PlayerEntry = Entry<PlayerDetails, PlayerState, PlayerBlockData, ()>
  type PrecommitEntry = Entry<PrecommitDetails, PrecommitState, (), BenchmarkSettings>
  type ProofEntry = Entry<(), ProofState, (), seq<MerkleProof>>
  type TopUpEntry = Entry<TopUpDetails, TopUpState, (), ()>
  type WasmEntry = Entry<WasmDetails, WasmState, (), ()>

  type Algorithm = Record<AlgorithmDetails, AlgorithmState, AlgorithmBlockData, string>
  type Benchmark = Record<BenchmarkDetails, BenchmarkState, (), set<nat>>
  type Challenge = Record<ChallengeDetails, ChallengeState, ChallengeBlockData, ()>
  type Fraud = Record<(), FraudState, (), string>
  type Player = Record<PlayerDetails, PlayerState, PlayerBlockData, ()>
  type Precommit = Record<PrecommitDetails, PrecommitState, (), BenchmarkSettings>
  type Proof = Record<(), ProofState, (), seq<MerkleProof>>
  type TopUp = Record<TopUpDetails, TopUpState, (), ()>
  type Wasm = Record<WasmDetails, WasmState, (), ()>

  // ---------------------------------------------------------------------------
  // The closed filters.  Benchmark, fraud, precommit and proof mempool and
  // confirmed filters carry `from_block_started`; the others do not.

  datatype AlgorithmsFilter = Id(id: string) | Name(name: string) | TxHash(txHash: string) | Mempool | Confirmed
  datatype BenchmarksFilter = Id(id: string) | Mempool(fromBlockStarted: nat) | Confirmed(fromBlockStarted: nat)
  datatype BlockFilter = Latest | Height(height: nat) | Id(id: string) | Round(round: nat)
  datatype ChallengesFilter = Id(id: string) | Name(name: string) | Mempool | Confirmed
  datatype FraudsFilter = BenchmarkId(benchmarkId: string) | Mempool(fromBlockStarted: nat) | Confirmed(fromBlockStarted: nat)
  datatype PlayersFilter = Id(id: string) | Name(name: string) | Benchmarkers | Innovators
  datatype PrecommitsFilter = BenchmarkId(benchmarkId: string) | Settings(settings: BenchmarkSettings)
                            | Mempool(fromBlockStarted: nat) | Confirmed(fromBlockStarted: nat)
  datatype ProofsFilter = BenchmarkId(benchmarkId: string) | Mempool(fromBlockStarted: nat) | Confirmed(fromBlockStarted: nat)
  datatype TopUpsFilter = Id(id: string) | PlayerId(playerId: string) | Mempool | Confirmed
  datatype WasmsFilter = AlgorithmId(algorithmId: string) | Mempool | Confirmed

  // ---------------------------------------------------------------------------
  // Generic reads.

  /** The entity as handed back: the data of block `blockId`, if it has any,
      and the payload only when `includeData`. */
  function View<D, S, B, P>(e: Entry<D, S, B, P>, blockId: Option<string>, includeData: bool): (r: Record<D, S, B, P>)
    ensures r.id == e.id && r.details == e.details && r.state == e.state
    ensures r.blockData.Some? <==> blockId.Some? && blockId.value in e.blockData
    ensures r.blockData.Some? ==> r.blockData.value == e.blockData[blockId.value]
    ensures r.payload.Some? <==> includeData
    ensures r.payload.Some? ==> r.payload.value == e.payload
  {
    Record(e.id, e.details, e.state,
           if blockId.Some? && blockId.value in e.blockData then Some(e.blockData[blockId.value]) else None,
           if includeData then Some(e.payload) else None)
  }

  /** The entries `keep` selects, in ledger order, as handed back.  Every
      entry it selects is read, and nothing else is. */
  function Read<D, S, B, P>(es: seq<Entry<D, S, B, P>>, keep: Entry<D, S, B, P> -> bool,
                            blockId: Option<string>, includeData: bool): (rs: seq<Record<D, S, B, P>>)
    ensures |rs| <= |es|
    ensures forall k :: 0 <= k < |es| && keep(es[k]) ==> View(es[k], blockId, includeData) in rs
    ensures forall r :: r in rs ==> exists k :: 0 <= k < |es| && keep(es[k]) && r == View(es[k], blockId, includeData)
  {
    if es == [] then []
    else
      var rest := Read(es[1..], keep, blockId, includeData);
      assert forall k :: 1 <= k < |es| ==> es[k] == es[1..][k - 1];
      if keep(es[0]) then [View(es[0], blockId, includeData)] + rest else rest
  }

  /** Position `k` holds the first entry `keep` selects. */
  predicate FirstKept<D, S, B, P>(es: seq<Entry<D, S, B, P>>, keep: Entry<D, S, B, P> -> bool, k: nat) {
    k < |es| && keep(es[k]) && forall j :: 0 <= j < k ==> !keep(es[j])
  }

  /** A read keeps ledger order: what it hands back first is the first entry
      the filter selects. */
  lemma {:induction false} ReadFirst<D, S, B, P>(es: seq<Entry<D, S, B, P>>, keep: Entry<D, S, B, P> -> bool,
                                                 blockId: Option<string>, includeData: bool)
    ensures var rs := Read(es, keep, blockId, includeData);
      rs != [] ==> exists k: nat :: FirstKept(es, keep, k) && rs[0] == View(es[k], blockId, includeData)
  {
    if es != [] && !keep(es[0]) {
      var rest := Read(es[1..], keep, blockId, includeData);
      ReadFirst(es[1..], keep, blockId, includeData);
      if rest != [] {
        var k: nat :| FirstKept(es[1..], keep, k) && rest[0] == View(es[1..][k], blockId, includeData);
        assert es[1..][k] == es[k + 1];
        assert forall j :: 1 <= j < k + 1 ==> es[j] == es[1..][j - 1];
        assert FirstKept(es, keep, k + 1);
      }
    } else if es != [] {
      assert FirstKept(es, keep, 0);
    }
  }

  /** The first element that `p` selects, if any. */
  function First<T(==)>(xs: seq<T>, p: T -> bool): (r: Option<T>)
    ensures r.None? <==> forall k :: 0 <= k < |xs| ==> !p(xs[k])
    ensures r.Some? ==> exists k :: 0 <= k < |xs| && xs[k] == r.value && p(xs[k]) && forall j :: 0 <= j < k ==> !p(xs[j])
  {
    if xs == [] then None
    else if p(xs[0]) then Some(xs[0])
    else
      var r := First(xs[1..], p);
      assert forall k :: 1 <= k < |xs| ==> xs[k] == xs[1..][k - 1];
      if r.Some? then
        var k :| 0 <= k < |xs[1..]| && xs[1..][k] == r.value && p(xs[1..][k]) && forall j :: 0 <= j < k ==> !p(xs[1..][j]);
        assert xs[k + 1] == r.value && forall j :: 0 <= j < k + 1 ==> !p(xs[j]);
        r
      else r
  }

  /** The block a block filter names: the last one for `Latest`, otherwise the
      first one with that height, id or round. */
  function FindBlock(blocks: seq<Block>, filter: BlockFilter): (r: Option<Block>)
    ensures filter.Latest? ==> (r.None? <==> blocks == []) && (r.Some? ==> r.value == blocks[|blocks| - 1])
    ensures filter.Height? ==> (r.None? <==> forall k :: 0 <= k < |blocks| ==> blocks[k].details.height != filter.height)
    ensures filter.Height? && r.Some? ==> r.value in blocks && r.value.details.height == filter.height
    ensures filter.Id? ==> (r.None? <==> forall k :: 0 <= k < |blocks| ==> blocks[k].id != filter.id)
    ensures filter.Id? && r.Some? ==> r.value in blocks && r.value.id == filter.id
    ensures filter.Round? ==> (r.None? <==> forall k :: 0 <= k < |blocks| ==> blocks[k].details.round != filter.round)
    ensures filter.Round? && r.Some? ==> r.value in blocks && r.value.details.round == filter.round
  {
    match filter
    case Latest => if blocks == [] then None else Some(blocks[|blocks| - 1])
    case Height(h) => First(blocks, (b: Block) => b.details.height == h)
    case Id(id) => First(blocks, (b: Block) => b.id == id)
    case Round(round) => First(blocks, (b: Block) => b.details.round == round)
  }

  /** The ids of stored entries, in ledger order. */
  function Ids<D, S, B, P>(es: seq<Entry<D, S, B, P>>): (ids: seq<string>)
    ensures |ids| == |es| && forall k :: 0 <= k < |es| ==> ids[k] == es[k].id
  {
    seq(|es|, k requires 0 <= k < |es| => es[k].id)
  }

  /** The length of the longest id taken. */
  function Longest(ids: seq<string>): (m: nat)
    ensures forall k :: 0 <= k < |ids| ==> |ids[k]| <= m
  {
    if ids == [] then 0
    else
      var m := Longest(ids[1..]);
      assert forall k :: 1 <= k < |ids| ==> ids[k] == ids[1..][k - 1];
      if |ids[0]| > m then |ids[0]| else m
  }

  /** A freshly minted id: longer than every id taken, so none of them. */
  function Mint(taken: seq<string>): (id: string)
    ensures id !in taken
  {
    seq(Longest(taken) + 1, _ => 'x')
  }

  /** Entries with id `id` take state `s`; the others are left as they are. */
  function SetState<D, S, B, P>(es: seq<Entry<D, S, B, P>>, id: string, s: S): (r: seq<Entry<D, S, B, P>>)
    ensures |r| == |es|
    ensures forall k :: 0 <= k < |es| ==> r[k] == if es[k].id == id then es[k].(state := Some(s)) else es[k]
  {
    seq(|es|, k requires 0 <= k < |es| => if es[k].id == id then es[k].(state := Some(s)) else es[k])
  }

  /** Entries with id `id` take data `b` for block `blockId`; their data for
      other blocks and all other entries are left as they are. */
  function SetBlockData<D, S, B, P>(es: seq<Entry<D, S, B, P>>, id: string, blockId: string, b: B): (r: seq<Entry<D, S, B, P>>)
    ensures |r| == |es|
    ensures forall k :: 0 <= k < |es| ==> r[k] == if es[k].id == id then es[k].(blockData := es[k].blockData[blockId := b]) else es[k]
  {
    seq(|es|, k requires 0 <= k < |es| => if es[k].id == id then es[k].(blockData := es[k].blockData[blockId := b]) else es[k])
  }

  // ---------------------------------------------------------------------------
  // What each filter selects.

  /** The block a precommit with this benchmark id started at, if there is one. */
  function BlockStarted(precommits: seq<PrecommitEntry>, benchmarkId: string): Option<nat> {
    match First(precommits, (p: PrecommitEntry) => p.id == benchmarkId)
    case None => None
    case Some(p) => Some(p.details.blockStarted)
  }

  /** `Mempool { from_block_started }` and `Confirmed { from_block_started }`:
      still without state, or with one, and started at or after that block. */
  predicate InWindow<S>(state: Option<S>, started: Option<nat>, confirmed: bool, fromBlockStarted: nat) {
    state.Some? == confirmed && started.Some? && started.value >= fromBlockStarted
  }

  predicate AlgorithmMatches(filter: AlgorithmsFilter, e: AlgorithmEntry) {
    match filter
    case Id(id) => e.id == id
    case Name(name) => e.details.name == name
    case TxHash(h) => e.details.txHash == h
    case Mempool => e.state.None?
    case Confirmed => e.state.Some?
  }

  predicate BenchmarkMatches(filter: BenchmarksFilter, precommits: seq<PrecommitEntry>, e: BenchmarkEntry) {
    match filter
    case Id(id) => e.id == id
    case Mempool(from) => InWindow(e.state, BlockStarted(precommits, e.id), false, from)
    case Confirmed(from) => InWindow(e.state, BlockStarted(precommits, e.id), true, from)
  }

  predicate ChallengeMatches(filter: ChallengesFilter, e: ChallengeEntry) {
    match filter
    case Id(id) => e.id == id
    case Name(name) => e.details.name == name
    case Mempool => e.state.None?
    case Confirmed => e.state.Some?
  }

  predicate FraudMatches(filter: FraudsFilter, precommits: seq<PrecommitEntry>, e: FraudEntry) {
    match filter
    case BenchmarkId(id) => e.id == id
    case Mempool(from) => InWindow(e.state, BlockStarted(precommits, e.id), false, from)
    case Confirmed(from) => InWindow(e.state, BlockStarted(precommits, e.id), true, from)
  }

  /** Benchmarkers have precommitted a benchmark; innovators have submitted
      an algorithm. */
  predicate PlayerMatches(filter: PlayersFilter, precommits: seq<PrecommitEntry>, algorithms: seq<AlgorithmEntry>, e: PlayerEntry) {
    match filter
    case Id(id) => e.id == id
    case Name(name) => e.details.name == name
    case Benchmarkers => exists k :: 0 <= k < |precommits| && precommits[k].payload.playerId == e.id
    case Innovators => exists k :: 0 <= k < |algorithms| && algorithms[k].details.playerId == e.id
  }

  predicate PrecommitMatches(filter: PrecommitsFilter, e: PrecommitEntry) {
    match filter
    case BenchmarkId(id) => e.id == id
    case Settings(settings) => e.payload == settings
    case Mempool(from) => InWindow(e.state, Some(e.details.blockStarted), false, from)
    case Confirmed(from) => InWindow(e.state, Some(e.details.blockStarted), true, from)
  }

  predicate ProofMatches(filter: ProofsFilter, precommits: seq<PrecommitEntry>, e: ProofEntry) {
    match filter
    case BenchmarkId(id) => e.id == id
    case Mempool(from) => InWindow(e.state, BlockStarted(precommits, e.id), false, from)
    case Confirmed(from) => InWindow(e.state, BlockStarted(precommits, e.id), true, from)
  }

  predicate TopUpMatches(filter: TopUpsFilter, e: TopUpEntry) {
    match filter
    case Id(id) => e.id == id
    case PlayerId(player) => e.details.playerId == player
    case Mempool => e.state.None?
    case Confirmed => e.state.Some?
  }

  predicate WasmMatches(filter: WasmsFilter, e: WasmEntry) {
    match filter
    case AlgorithmId(id) => e.id == id
    case Mempool => e.state.None?
    case Confirmed => e.state.Some?
  }

  /** Everything the ledger holds, for stating what an operation leaves as it was. */
  datatype Store = Store(
    blocks: seq<Block>, challenges: seq<ChallengeEntry>, algorithms: seq<AlgorithmEntry>,
    benchmarks: seq<BenchmarkEntry>, precommits: seq<PrecommitEntry>, proofs: seq<ProofEntry>,
    frauds: seq<FraudEntry>, topups: seq<TopUpEntry>, wasms: seq<WasmEntry>, players: seq<PlayerEntry>,
    transactions: map<string, Transaction>, ethBlockNum: string, deposits: map<(string, string), nat>,
    faults: map<string, string>)

  // ---------------------------------------------------------------------------
  // The ledger.

  /** The `Context` trait.  The sandboxed execution engine behind
      `verify_solution` and `compute_solution` is a pair of functions fixed at
      construction. */
  class Ledger {
    var blocks: seq<Block>
    var challenges: seq<ChallengeEntry>
    var algorithms: seq<AlgorithmEntry>
    var benchmarks: seq<BenchmarkEntry>
    var precommits: seq<PrecommitEntry>
    var proofs: seq<ProofEntry>
    var frauds: seq<FraudEntry>
    var topups: seq<TopUpEntry>
    var wasms: seq<WasmEntry>
    var players: seq<PlayerEntry>
    /** The external chain's transfers by hash. */
    var transactions: map<string, Transaction>
    var ethBlockNum: string
    /** Deposits by (chain block number, player id). */
    var deposits: map<(string, string), nat>
    /** The infrastructure fault each operation currently reports, by its name. */
    var faults: map<string, string>
    const verifier: (BenchmarkSettings, nat, Solution) -> Outcome<()>
    const engine: (BenchmarkSettings, nat, WasmVMConfig) -> Outcome<OutputData>

    /** An empty ledger with no faults. */
    constructor(verifier: (BenchmarkSettings, nat, Solution) -> Outcome<()>,
                engine: (BenchmarkSettings, nat, WasmVMConfig) -> Outcome<OutputData>)
      ensures Snapshot() == Store([], [], [], [], [], [], [], [], [], [], map[], "", map[], map[])
      ensures this.verifier == verifier && this.engine == engine
    {
      blocks, challenges, algorithms, benchmarks, precommits := [], [], [], [], [];
      proofs, frauds, topups, wasms, players := [], [], [], [], [];
      transactions, ethBlockNum, deposits, faults := map[], "", map[], map[];
      this.verifier, this.engine := verifier, engine;
    }

    function Snapshot(): Store
      reads this
    {
      Store(blocks, challenges, algorithms, benchmarks, precommits, proofs, frauds, topups, wasms, players,
            transactions, ethBlockNum, deposits, faults)
    }

    /** The answer of operation `op`: its fault if it has one, otherwise `answer`. */
    function Answer<T>(op: string, answer: T): (r: ContextResult<T>)
      reads this
      ensures r.Err? <==> op in faults
      ensures r.Err? ==> r.error == faults[op]
      ensures r.Ok? ==> r.value == answer
    {
      if op in faults then Err(faults[op]) else Ok(answer)
    }

    /** The id of the block a block-data filter names, if any. */
    function DataBlock(blockData: Option<BlockFilter>): (r: Option<string>)
      reads this
      ensures blockData.None? ==> r.None?
      ensures blockData.Some? ==> (r.Some? <==> FindBlock(blocks, blockData.value).Some?)
      ensures r.Some? ==> r.value == FindBlock(blocks, blockData.value).value.id
    {
      if blockData.None? then None
      else match FindBlock(blocks, blockData.value)
        case None => None
        case Some(b) => Some(b.id)
    }

    // -------------------------------------------------------------------------
    // Reads.

    /** `get_algorithms`: every stored algorithm the filter selects, with the
        data of the block asked for and its code when `include_data`. */
    function GetAlgorithms(filter: AlgorithmsFilter, blockData: Option<BlockFilter>, includeData: bool): (r: ContextResult<seq<Algorithm>>)
      reads this
      ensures r.Err? <==> "get_algorithms" in faults
      ensures r.Ok? ==> forall k :: 0 <= k < |algorithms| && AlgorithmMatches(filter, algorithms[k]) ==>
        View(algorithms[k], DataBlock(blockData), includeData) in r.value
      ensures r.Ok? ==> forall a :: a in r.value ==>
        (exists k :: 0 <= k < |algorithms| && AlgorithmMatches(filter, algorithms[k]) && a == View(algorithms[k], DataBlock(blockData), includeData))
    {
      Answer("get_algorithms", Read(algorithms, e => AlgorithmMatches(filter, e), DataBlock(blockData), includeData))
    }

    /** `get_benchmarks`: every stored benchmark the filter selects, with its
        solution nonces when `include_data`. */
    function GetBenchmarks(filter: BenchmarksFilter, includeData: bool): (r: ContextResult<seq<Benchmark>>)
      reads this
      ensures r.Err? <==> "get_benchmarks" in faults
      ensures r.Ok? ==> forall k :: 0 <= k < |benchmarks| && BenchmarkMatches(filter, precommits, benchmarks[k]) ==>
        View(benchmarks[k], None, includeData) in r.value
      ensures r.Ok? ==> forall a :: a in r.value ==>
        (exists k :: 0 <= k < |benchmarks| && BenchmarkMatches(filter, precommits, benchmarks[k]) && a == View(benchmarks[k], None, includeData))
    {
      var pre := precommits;
      Answer("get_benchmarks", Read(benchmarks, e => BenchmarkMatches(filter, pre, e), None, includeData))
    }

    /** `get_block`: "no such block" is the answer `None`, not a failure; the
        block's data is kept only when `include_data`. */
    function GetBlock(filter: BlockFilter, includeData: bool): (r: ContextResult<Option<Block>>)
      reads this
      ensures r.Err? <==> "get_block" in faults
      ensures r.Ok? ==> (r.value.None? <==> FindBlock(blocks, filter).None?)
      ensures r.Ok? && r.value.Some? ==> var b := FindBlock(blocks, filter).value;
        r.value.value == (if includeData then b else b.(data := None))
    {
      Answer("get_block", match FindBlock(blocks, filter)
        case None => None
        case Some(b) => Some(if includeData then b else b.(data := None)))
    }

    /** `get_challenges`: every stored challenge the filter selects, with the
        data of the block asked for. */
    function GetChallenges(filter: ChallengesFilter, blockData: Option<BlockFilter>): (r: ContextResult<seq<Challenge>>)
      reads this
      ensures r.Err? <==> "get_challenges" in faults
      ensures r.Ok? ==> forall k :: 0 <= k < |challenges| && ChallengeMatches(filter, challenges[k]) ==>
        View(challenges[k], DataBlock(blockData), false) in r.value
      ensures r.Ok? ==> forall a :: a in r.value ==>
        (exists k :: 0 <= k < |challenges| && ChallengeMatches(filter, challenges[k]) && a == View(challenges[k], DataBlock(blockData), false))
    {
      Answer("get_challenges", Read(challenges, e => ChallengeMatches(filter, e), DataBlock(blockData), false))
    }

    /** `get_config`: the configuration of the latest block; with no block
        there is no configuration to hand back. */
    function GetConfig(): (r: ContextResult<ProtocolConfig>)
      reads this
      ensures r.Err? <==> "get_config" in faults || blocks == []
      ensures r.Ok? ==> r.value == blocks[|blocks| - 1].config
    {
      if "get_config" in faults then Err(faults["get_config"])
      else if blocks == [] then Err("no block")
      else Ok(blocks[|blocks| - 1].config)
    }

    /** `get_frauds`: every stored fraud the filter selects, with its
        allegation when `include_data`. */
    function GetFrauds(filter: FraudsFilter, includeData: bool): (r: ContextResult<seq<Fraud>>)
      reads this
      ensures r.Err? <==> "get_frauds" in faults
      ensures r.Ok? ==> forall k :: 0 <= k < |frauds| && FraudMatches(filter, precommits, frauds[k]) ==>
        View(frauds[k], None, includeData) in r.value
      ensures r.Ok? ==> forall a :: a in r.value ==>
        (exists k :: 0 <= k < |frauds| && FraudMatches(filter, precommits, frauds[k]) && a == View(frauds[k], None, includeData))
    {
      var pre := precommits;
      Answer("get_frauds", Read(frauds, e => FraudMatches(filter, pre, e), None, includeData))
    }

    /** `get_players`: every stored player the filter selects, with the data
        of the block asked for. */
    function GetPlayers(filter: PlayersFilter, blockData: Option<BlockFilter>): (r: ContextResult<seq<Player>>)
      reads this
      ensures r.Err? <==> "get_players" in faults
      ensures r.Ok? ==> forall k :: 0 <= k < |players| && PlayerMatches(filter, precommits, algorithms, players[k]) ==>
        View(players[k], DataBlock(blockData), false) in r.value
      ensures r.Ok? ==> forall a :: a in r.value ==>
        (exists k :: 0 <= k < |players| && PlayerMatches(filter, precommits, algorithms, players[k]) && a == View(players[k], DataBlock(blockData), false))
    {
      var pre, algs := precommits, algorithms;
      Answer("get_players", Read(players, e => PlayerMatches(filter, pre, algs, e), DataBlock(blockData), false))
    }

    /** `get_precommits`: every stored precommit the filter selects, with its
        settings. */
    function GetPrecommits(filter: PrecommitsFilter): (r: ContextResult<seq<Precommit>>)
      reads this
      ensures r.Err? <==> "get_precommits" in faults
      ensures r.Ok? ==> forall k :: 0 <= k < |precommits| && PrecommitMatches(filter, precommits[k]) ==>
        View(precommits[k], None, true) in r.value
      ensures r.Ok? ==> forall a :: a in r.value ==>
        (exists k :: 0 <= k < |precommits| && PrecommitMatches(filter, precommits[k]) && a == View(precommits[k], None, true))
    {
      Answer("get_precommits", Read(precommits, e => PrecommitMatches(filter, e), None, true))
    }

    /** `get_proofs`: every stored proof the filter selects, with its merkle
        proofs when `include_data`. */
    function GetProofs(filter: ProofsFilter, includeData: bool): (r: ContextResult<seq<Proof>>)
      reads this
      ensures r.Err? <==> "get_proofs" in faults
      ensures r.Ok? ==> forall k :: 0 <= k < |proofs| && ProofMatches(filter, precommits, proofs[k]) ==>
        View(proofs[k], None, includeData) in r.value
      ensures r.Ok? ==> forall a :: a in r.value ==>
        (exists k :: 0 <= k < |proofs| && ProofMatches(filter, precommits, proofs[k]) && a == View(proofs[k], None, includeData))
    {
      var pre := precommits;
      Answer("get_proofs", Read(proofs, e => ProofMatches(filter, pre, e), None, includeData))
    }

    /** `get_topups`: every stored top-up the filter selects. */
    function GetTopups(filter: TopUpsFilter): (r: ContextResult<seq<TopUp>>)
      reads this
      ensures r.Err? <==> "get_topups" in faults
      ensures r.Ok? ==> forall k :: 0 <= k < |topups| && TopUpMatches(filter, topups[k]) ==>
        View(topups[k], None, false) in r.value
      ensures r.Ok? ==> forall a :: a in r.value ==>
        (exists k :: 0 <= k < |topups| && TopUpMatches(filter, topups[k]) && a == View(topups[k], None, false))
    {
      Answer("get_topups", Read(topups, e => TopUpMatches(filter, e), None, false))
    }

    /** `get_wasms`: every stored wasm the filter selects. */
    function GetWasms(filter: WasmsFilter): (r: ContextResult<seq<Wasm>>)
      reads this
      ensures r.Err? <==> "get_wasms" in faults
      ensures r.Ok? ==> forall k :: 0 <= k < |wasms| && WasmMatches(filter, wasms[k]) ==>
        View(wasms[k], None, false) in r.value
      ensures r.Ok? ==> forall a :: a in r.value ==>
        (exists k :: 0 <= k < |wasms| && WasmMatches(filter, wasms[k]) && a == View(wasms[k], None, false))
    {
      Answer("get_wasms", Read(wasms, e => WasmMatches(filter, e), None, false))
    }

    /** `verify_solution`: the outer layer is the gateway, the inner one the
        engine's verdict. */
    function VerifySolution(settings: BenchmarkSettings, nonce: nat, solution: Solution): (r: ContextResult<Outcome<()>>)
      reads this
      ensures r.Err? <==> "verify_solution" in faults
      ensures r.Ok? ==> r.value == verifier(settings, nonce, solution)
    {
      Answer("verify_solution", verifier(settings, nonce, solution))
    }

    /** `compute_solution`: the outer layer is the gateway, the inner one the
        engine's output or its failure. */
    function ComputeSolution(settings: BenchmarkSettings, nonce: nat, config: WasmVMConfig): (r: ContextResult<Outcome<OutputData>>)
      reads this
      ensures r.Err? <==> "compute_solution" in faults
      ensures r.Ok? ==> r.value == engine(settings, nonce, config)
    {
      Answer("compute_solution", engine(settings, nonce, config))
    }

    /** `get_transaction`: fails when the gateway does or when the chain knows
        no transfer with that hash. */
    function GetTransaction(txHash: string): (r: ContextResult<Transaction>)
      reads this
      ensures r.Err? <==> "get_transaction" in faults || txHash !in transactions
      ensures r.Ok? ==> r.value == transactions[txHash]
    {
      if "get_transaction" in faults then Err(faults["get_transaction"])
      else if txHash !in transactions then Err("transaction not found")
      else Ok(transactions[txHash])
    }

    function GetLatestEthBlockNum(): (r: ContextResult<string>)
      reads this
      ensures r.Err? <==> "get_latest_eth_block_num" in faults
      ensures r.Ok? ==> r.value == ethBlockNum
    {
      Answer("get_latest_eth_block_num", ethBlockNum)
    }

    /** `get_player_deposit`: a player without a deposit at that chain block
        is the answer `None`. */
    function GetPlayerDeposit(ethBlockNum: string, playerId: string): (r: ContextResult<Option<nat>>)
      reads this
      ensures r.Err? <==> "get_player_deposit" in faults
      ensures r.Ok? ==> (r.value.Some? <==> (ethBlockNum, playerId) in deposits)
      ensures r.Ok? && r.value.Some? ==> r.value.value == deposits[(ethBlockNum, playerId)]
    {
      Answer("get_player_deposit", if (ethBlockNum, playerId) in deposits then Some(deposits[(ethBlockNum, playerId)]) else None)
    }

    // -------------------------------------------------------------------------
    // Mempool inserts.  Blocks, challenges, algorithms and precommits get a
    // freshly minted id; the others are keyed by the id the caller gives.

    /** `add_block`: appends the block under a new id and returns it. */
    method AddBlock(details: BlockDetails, data: BlockData, config: ProtocolConfig) returns (r: ContextResult<string>)
      modifies this
      ensures r.Err? <==> "add_block" in faults
      ensures r.Err? ==> Snapshot() == old(Snapshot())
      ensures r.Ok? ==> forall k :: 0 <= k < |old(blocks)| ==> old(blocks)[k].id != r.value
      ensures r.Ok? ==> Snapshot() == old(Snapshot()).(blocks := old(blocks) + [Block(r.value, details, config, Some(data))])
    {
      if "add_block" in faults {
        return Err(faults["add_block"]);
      }
      var chain := blocks;
      var taken := seq(|chain|, k requires 0 <= k < |chain| => chain[k].id);
      var id := Mint(taken);
      assert forall k :: 0 <= k < |chain| ==> chain[k].id == taken[k] && taken[k] in taken;
      blocks := blocks + [Block(id, details, config, Some(data))];
      return Ok(id);
    }

    /** `add_challenge_to_mempool`: a new challenge, without state, under a new id. */
    method AddChallengeToMempool(details: ChallengeDetails) returns (r: ContextResult<string>)
      modifies this
      ensures r.Err? <==> "add_challenge_to_mempool" in faults
      ensures r.Err? ==> Snapshot() == old(Snapshot())
      ensures r.Ok? ==> r.value !in Ids(old(challenges))
      ensures r.Ok? ==> Snapshot() == old(Snapshot()).(challenges := old(challenges) + [Entry(r.value, details, None, map[], ())])
    {
      if "add_challenge_to_mempool" in faults {
        return Err(faults["add_challenge_to_mempool"]);
      }
      var id := Mint(Ids(challenges));
      challenges := challenges + [Entry(id, details, None, map[], ())];
      return Ok(id);
    }

    /** `add_algorithm_to_mempool`: a new algorithm with its code, without
        state, under a new id. */
    method AddAlgorithmToMempool(details: AlgorithmDetails, code: string) returns (r: ContextResult<string>)
      modifies this
      ensures r.Err? <==> "add_algorithm_to_mempool" in faults
      ensures r.Err? ==> Snapshot() == old(Snapshot())
      ensures r.Ok? ==> r.value !in Ids(old(algorithms))
      ensures r.Ok? ==> Snapshot() == old(Snapshot()).(algorithms := old(algorithms) + [Entry(r.value, details, None, map[], code)])
    {
      if "add_algorithm_to_mempool" in faults {
        return Err(faults["add_algorithm_to_mempool"]);
      }
      var id := Mint(Ids(algorithms));
      algorithms := algorithms + [Entry(id, details, None, map[], code)];
      return Ok(id);
    }

    /** `add_benchmark_to_mempool`: a new benchmark under the caller's id. */
    method AddBenchmarkToMempool(benchmarkId: string, details: BenchmarkDetails, solutionNonces: set<nat>) returns (r: ContextResult<()>)
      modifies this
      ensures r.Err? <==> "add_benchmark_to_mempool" in faults
      ensures r.Err? ==> Snapshot() == old(Snapshot())
      ensures r.Ok? ==> Snapshot() == old(Snapshot()).(benchmarks := old(benchmarks) + [Entry(benchmarkId, details, None, map[], solutionNonces)])
    {
      if "add_benchmark_to_mempool" in faults {
        return Err(faults["add_benchmark_to_mempool"]);
      }
      benchmarks := benchmarks + [Entry(benchmarkId, details, None, map[], solutionNonces)];
      return Ok(());
    }

    /** `add_precommit_to_mempool`: a new precommit with its settings under a
        new benchmark id. */
    method AddPrecommitToMempool(settings: BenchmarkSettings, details: PrecommitDetails) returns (r: ContextResult<string>)
      modifies this
      ensures r.Err? <==> "add_precommit_to_mempool" in faults
      ensures r.Err? ==> Snapshot() == old(Snapshot())
      ensures r.Ok? ==> r.value !in Ids(old(precommits))
      ensures r.Ok? ==> Snapshot() == old(Snapshot()).(precommits := old(precommits) + [Entry(r.value, details, None, map[], settings)])
    {
      if "add_precommit_to_mempool" in faults {
        return Err(faults["add_precommit_to_mempool"]);
      }
      var id := Mint(Ids(precommits));
      precommits := precommits + [Entry(id, details, None, map[], settings)];
      return Ok(id);
    }

    /** `add_proof_to_mempool`: a new proof under the caller's benchmark id. */
    method AddProofToMempool(benchmarkId: string, merkleProofs: seq<MerkleProof>) returns (r: ContextResult<()>)
      modifies this
      ensures r.Err? <==> "add_proof_to_mempool" in faults
      ensures r.Err? ==> Snapshot() == old(Snapshot())
      ensures r.Ok? ==> Snapshot() == old(Snapshot()).(proofs := old(proofs) + [Entry(benchmarkId, (), None, map[], merkleProofs)])
    {
      if "add_proof_to_mempool" in faults {
        return Err(faults["add_proof_to_mempool"]);
      }
      proofs := proofs + [Entry(benchmarkId, (), None, map[], merkleProofs)];
      return Ok(());
    }

    /** `add_fraud_to_mempool`: a new fraud allegation under the caller's
        benchmark id. */
    method AddFraudToMempool(benchmarkId: string, allegation: string) returns (r: ContextResult<()>)
      modifies this
      ensures r.Err? <==> "add_fraud_to_mempool" in faults
      ensures r.Err? ==> Snapshot() == old(Snapshot())
      ensures r.Ok? ==> Snapshot() == old(Snapshot()).(frauds := old(frauds) + [Entry(benchmarkId, (), None, map[], allegation)])
    {
      if "add_fraud_to_mempool" in faults {
        return Err(faults["add_fraud_to_mempool"]);
      }
      frauds := frauds + [Entry(benchmarkId, (), None, map[], allegation)];
      return Ok(());
    }

    /** `add_topup_to_mempool`: a new top-up under the caller's id. */
    method AddTopupToMempool(topupId: string, details: TopUpDetails) returns (r: ContextResult<()>)
      modifies this
      ensures r.Err? <==> "add_topup_to_mempool" in faults
      ensures r.Err? ==> Snapshot() == old(Snapshot())
      ensures r.Ok? ==> Snapshot() == old(Snapshot()).(topups := old(topups) + [Entry(topupId, details, None, map[], ())])
    {
      if "add_topup_to_mempool" in faults {
        return Err(faults["add_topup_to_mempool"]);
      }
      topups := topups + [Entry(topupId, details, None, map[], ())];
      return Ok(());
    }

    /** `add_wasm_to_mempool`: a new wasm under the caller's algorithm id. */
    method AddWasmToMempool(algorithmId: string, details: WasmDetails) returns (r: ContextResult<()>)
      modifies this
      ensures r.Err? <==> "add_wasm_to_mempool" in faults
      ensures r.Err? ==> Snapshot() == old(Snapshot())
      ensures r.Ok? ==> Snapshot() == old(Snapshot()).(wasms := old(wasms) + [Entry(algorithmId, details, None, map[], ())])
    {
      if "add_wasm_to_mempool" in faults {
        return Err(faults["add_wasm_to_mempool"]);
      }
      wasms := wasms + [Entry(algorithmId, details, None, map[], ())];
      return Ok(());
    }

    // -------------------------------------------------------------------------
    // Updates: a state is keyed by the entity id alone, block data by the
    // entity id and the block id.

    method UpdateChallengeState(challengeId: string, state: ChallengeState) returns (r: ContextResult<()>)
      modifies this
      ensures r.Err? <==> "update_challenge_state" in faults
      ensures r.Err? ==> Snapshot() == old(Snapshot())
      ensures r.Ok? ==> Snapshot() == old(Snapshot()).(challenges := SetState(old(challenges), challengeId, state))
    {
      if "update_challenge_state" in faults {
        return Err(faults["update_challenge_state"]);
      }
      challenges := SetState(challenges, challengeId, state);
      return Ok(());
    }

    method UpdateChallengeBlockData(challengeId: string, blockId: string, blockData: ChallengeBlockData) returns (r: ContextResult<()>)
      modifies this
      ensures r.Err? <==> "update_challenge_block_data" in faults
      ensures r.Err? ==> Snapshot() == old(Snapshot())
      ensures r.Ok? ==> Snapshot() == old(Snapshot()).(challenges := SetBlockData(old(challenges), challengeId, blockId, blockData))
    {
      if "update_challenge_block_data" in faults {
        return Err(faults["update_challenge_block_data"]);
      }
      challenges := SetBlockData(challenges, challengeId, blockId, blockData);
      return Ok(());
    }

    method UpdateAlgorithmState(algorithmId: string, state: AlgorithmState) returns (r: ContextResult<()>)
      modifies this
      ensures r.Err? <==> "update_algorithm_state" in faults
      ensures r.Err? ==> Snapshot() == old(Snapshot())
      ensures r.Ok? ==> Snapshot() == old(Snapshot()).(algorithms := SetState(old(algorithms), algorithmId, state))
    {
      if "update_algorithm_state" in faults {
        return Err(faults["update_algorithm_state"]);
      }
      algorithms := SetState(algorithms, algorithmId, state);
      return Ok(());
    }

    method UpdateAlgorithmBlockData(algorithmId: string, blockId: string, blockData: AlgorithmBlockData) returns (r: ContextResult<()>)
      modifies this
      ensures r.Err? <==> "update_algorithm_block_data" in faults
      ensures r.Err? ==> Snapshot() == old(Snapshot())
      ensures r.Ok? ==> Snapshot() == old(Snapshot()).(algorithms := SetBlockData(old(algorithms), algorithmId, blockId, blockData))
    {
      if "update_algorithm_block_data" in faults {
        return Err(faults["update_algorithm_block_data"]);
      }
      algorithms := SetBlockData(algorithms, algorithmId, blockId, blockData);
      return Ok(());
    }

    method UpdateBenchmarkState(benchmarkId: string, state: BenchmarkState) returns (r: ContextResult<()>)
      modifies this
      ensures r.Err? <==> "update_benchmark_state" in faults
      ensures r.Err? ==> Snapshot() == old(Snapshot())
      ensures r.Ok? ==> Snapshot() == old(Snapshot()).(benchmarks := SetState(old(benchmarks), benchmarkId, state))
    {
      if "update_benchmark_state" in faults {
        return Err(faults["update_benchmark_state"]);
      }
      benchmarks := SetState(benchmarks, benchmarkId, state);
      return Ok(());
    }

    method UpdatePlayerState(playerId: string, state: PlayerState) returns (r: ContextResult<()>)
      modifies this
      ensures r.Err? <==> "update_player_state" in faults
      ensures r.Err? ==> Snapshot() == old(Snapshot())
      ensures r.Ok? ==> Snapshot() == old(Snapshot()).(players := SetState(old(players), playerId, state))
    {
      if "update_player_state" in faults {
        return Err(faults["update_player_state"]);
      }
      players := SetState(players, playerId, state);
      return Ok(());
    }

    method UpdatePrecommitState(benchmarkId: string, state: PrecommitState) returns (r: ContextResult<()>)
      modifies this
      ensures r.Err? <==> "update_precommit_state" in faults
      ensures r.Err? ==> Snapshot() == old(Snapshot())
      ensures r.Ok? ==> Snapshot() == old(Snapshot()).(precommits := SetState(old(precommits), benchmarkId, state))
    {
      if "update_precommit_state" in faults {
        return Err(faults["update_precommit_state"]);
      }
      precommits := SetState(precommits, benchmarkId, state);
      return Ok(());
    }

    method UpdateProofState(benchmarkId: string, state: ProofState) returns (r: ContextResult<()>)
      modifies this
      ensures r.Err? <==> "update_proof_state" in faults
      ensures r.Err? ==> Snapshot() == old(Snapshot())
      ensures r.Ok? ==> Snapshot() == old(Snapshot()).(proofs := SetState(old(proofs), benchmarkId, state))
    {
      if "update_proof_state" in faults {
        return Err(faults["update_proof_state"]);
      }
      proofs := SetState(proofs, benchmarkId, state);
      return Ok(());
    }

    method UpdateFraudState(benchmarkId: string, state: FraudState) returns (r: ContextResult<()>)
      modifies this
      ensures r.Err? <==> "update_fraud_state" in faults
      ensures r.Err? ==> Snapshot() == old(Snapshot())
      ensures r.Ok? ==> Snapshot() == old(Snapshot()).(frauds := SetState(old(frauds), benchmarkId, state))
    {
      if "update_fraud_state" in faults {
        return Err(faults["update_fraud_state"]);
      }
      frauds := SetState(frauds, benchmarkId, state);
      return Ok(());
    }

    method UpdateTopupState(topupId: string, state: TopUpState) returns (r: ContextResult<()>)
      modifies this
      ensures r.Err? <==> "update_topup_state" in faults
      ensures r.Err? ==> Snapshot() == old(Snapshot())
      ensures r.Ok? ==> Snapshot() == old(Snapshot()).(topups := SetState(old(topups), topupId, state))
    {
      if "update_topup_state" in faults {
        return Err(faults["update_topup_state"]);
      }
      topups := SetState(topups, topupId, state);
      return Ok(());
    }

    method UpdatePlayerBlockData(playerId: string, blockId: string, blockData: PlayerBlockData) returns (r: ContextResult<()>)
      modifies this
      ensures r.Err? <==> "update_player_block_data" in faults
      ensures r.Err? ==> Snapshot() == old(Snapshot())
      ensures r.Ok? ==> Snapshot() == old(Snapshot()).(players := SetBlockData(old(players), playerId, blockId, blockData))
    {
      if "update_player_block_data" in faults {
        return Err(faults["update_player_block_data"]);
      }
      players := SetBlockData(players, playerId, blockId, blockData);
      return Ok(());
    }

    method UpdateWasmState(algorithmId: string, state: WasmState) returns (r: ContextResult<()>)
      modifies this
      ensures r.Err? <==> "update_wasm_state" in faults
      ensures r.Err? ==> Snapshot() == old(Snapshot())
      ensures r.Ok? ==> Snapshot() == old(Snapshot()).(wasms := SetState(old(wasms), algorithmId, state))
    {
      if "update_wasm_state" in faults {
        return Err(faults["update_wasm_state"]);
      }
      wasms := SetState(wasms, algorithmId, state);
      return Ok(());
    }
  }
}
