/** Blocks of the version 0.1 chain and the rules a node applies to one under its parent's branch. */
module ChainV1 {
  import opened Results
  import opened Collections
  import opened Coins
  import Currency

  const ZERO_HASH: Hash := 0
  const GENESIS_MINER := "genesis"

  datatype Kind = TransferKind | ClaimKind | OtherKind

  /** The claim metadata that outlives a migration claim on its outputs. */
  datatype Claim = Claim(classicalAddress: string, sourceNetwork: string, providerId: string)

  /** `witness_` holds what only signature and ownership checks read. */
  datatype Transaction = Transaction(
    kind: Kind, inputs: seq<Outpoint>, outputs: seq<Coin>, fee: int, timestamp: int, chainId: string,
    claim: Claim, witness_: string, txId: Hash)

  datatype Block = Block(
    index: int, previousHash: Hash, transactions: seq<Transaction>, miner: string, difficulty: int, chainId: string,
    version: int, timestamp: int, nonce: int, stateRoot: Option<Hash>, blockHash: Hash)

  datatype Config = Config(
    chainId: string, difficulty: nat, policy: Currency.Policy, coinbaseMaturity: int, escrowBlocks: int,
    epochMintCap: int, epochLength: int, stateRootActivation: int,
    genesisCap: int, poolCap: int, maxMoney: int,
    transactionHash: Transaction -> Hash, blockHash: Block -> Hash, stateRoot: Utxos -> Hash)

  /** What a node consults besides the chain when it validates a block: its clock, signature verification,
      the migration sources with their review policy, and which classical addresses are frozen. */
  datatype Env = Env(
    latestTime: int, signaturesVerify: (Transaction, Utxos) -> bool, claimAdmitted: (Transaction, int) -> bool,
    frozen: string -> bool)

  /** Where a live output came from. */
  datatype Origin = Origin(height: int, coinbase: bool, claim: Option<Claim>)

  type Origins = map<Outpoint, Origin>

  // ---------------------------------------------------------------- replay

  function ApplyTransaction(m: Utxos, tx: Transaction): Utxos
  {
    WithOutputs(Without(m, tx.inputs), tx.txId, tx.outputs)
  }

  function ApplyTransactions(m: Utxos, txs: seq<Transaction>): Utxos
  {
    if txs == [] then m else ApplyTransaction(ApplyTransactions(m, txs[..|txs| - 1]), txs[|txs| - 1])
  }

  /** The unspent outputs after a path of blocks. */
  function UtxosOf(path: seq<Block>): Utxos
  {
    if path == [] then map[] else ApplyTransactions(UtxosOf(path[..|path| - 1]), path[|path| - 1].transactions)
  }

  function OriginOf(b: Block, k: nat): Origin
    requires k < |b.transactions|
  {
    var tx := b.transactions[k];
    Origin(b.index, b.index > 0 && k == 0 && tx.inputs == [], if tx.kind == ClaimKind then Some(tx.claim) else None)
  }

  function WithOrigins(o: Origins, txId: Hash, n: nat, origin: Origin): Origins
  {
    if n == 0 then o else WithOrigins(o, txId, n - 1, origin)[Outpoint(txId, n - 1) := origin]
  }

  /** One transaction of a branch with the origin its outputs get. */
  datatype Event = Event(tx: Transaction, origin: Origin)

  function BlockEvents(b: Block, k: nat): (s: seq<Event>)
    requires k <= |b.transactions|
    ensures |s| == k
  {
    seq(k, j requires 0 <= j < k => Event(b.transactions[j], OriginOf(b, j)))
  }

  function Events(path: seq<Block>): seq<Event>
  {
    if path == [] then []
    else Events(path[..|path| - 1]) + BlockEvents(path[|path| - 1], |path[|path| - 1].transactions|)
  }

  function OriginStep(o: Origins, e: Event): Origins
  {
    WithOrigins(o - Elements(e.tx.inputs), e.tx.txId, |e.tx.outputs|, e.origin)
  }

  function FoldOrigins(events: seq<Event>): Origins
  {
    if events == [] then map[] else OriginStep(FoldOrigins(events[..|events| - 1]), events[|events| - 1])
  }

  /** The origin metadata after a path of blocks. */
  function OriginsOf(path: seq<Block>): Origins { FoldOrigins(Events(path)) }

  /** The classical addresses claimed by a list of transactions, in order. */
  function ClaimsIn(txs: seq<Transaction>): seq<string>
  {
    if txs == [] then []
    else
      var tx := txs[|txs| - 1];
      ClaimsIn(txs[..|txs| - 1]) + if tx.kind == ClaimKind then [tx.claim.classicalAddress] else []
  }

  function ClaimsOf(path: seq<Block>): seq<string>
  {
    if path == [] then [] else ClaimsOf(path[..|path| - 1]) + ClaimsIn(path[|path| - 1].transactions)
  }

  // ---------------------------------------------------------------- supply

  /** What migration claims in these transactions mint. */
  function MintedIn(txs: seq<Transaction>): int
  {
    if txs == [] then 0
    else
      var tx := txs[|txs| - 1];
      MintedIn(txs[..|txs| - 1]) + if tx.kind == ClaimKind then Amount(tx.outputs) else 0
  }

  function OutputsIn(txs: seq<Transaction>): int
  {
    if txs == [] then 0 else OutputsIn(txs[..|txs| - 1]) + Amount(txs[|txs| - 1].outputs)
  }

  datatype Supply = Supply(genesis: int, subsidy: int, minted: int)

  function Issued(s: Supply): int { s.genesis + s.subsidy + s.minted }

  /** The independently calculated supply of a path. */
  function SupplyOf(cfg: Config, path: seq<Block>): Supply
  {
    if path == [] then Supply(0, 0, 0)
    else
      var s, b := SupplyOf(cfg, path[..|path| - 1]), path[|path| - 1];
      if b.index == 0 then s.(genesis := s.genesis + OutputsIn(b.transactions))
      else if b.transactions == [] then s
      else s.(subsidy := s.subsidy + Currency.SubsidyAt(cfg.policy, b.index),
              minted := s.minted + MintedIn(b.transactions[1..]))
  }

  predicate WithinLimits(cfg: Config, s: Supply)
  {
    && (cfg.genesisCap > 0 ==> s.genesis <= cfg.genesisCap)
    && (cfg.policy.emissionCap > 0 ==> s.subsidy <= cfg.policy.emissionCap)
    && (cfg.poolCap > 0 ==> s.minted <= cfg.poolCap)
    && Issued(s) <= cfg.maxMoney
  }

  /** The live total equals the issued supply. */
  ghost predicate Reconciled(cfg: Config, path: seq<Block>)
  {
    Total(UtxosOf(path)) == Issued(SupplyOf(cfg, path))
  }

  function EpochLength(cfg: Config): int { if cfg.epochLength > 1 then cfg.epochLength else 1 }

  function EpochOf(cfg: Config, height: int): int { (if height > 0 then height else 0) / EpochLength(cfg) }

  /** Migration value minted by the blocks of a path whose height lies in an epoch. */
  function EpochMinted(cfg: Config, path: seq<Block>, epoch: int): int
  {
    if path == [] then 0
    else
      var b := path[|path| - 1];
      EpochMinted(cfg, path[..|path| - 1], epoch)
      + if epoch * EpochLength(cfg) <= b.index <= epoch * EpochLength(cfg) + EpochLength(cfg) - 1
        then MintedIn(b.transactions) else 0
  }

  // ---------------------------------------------------------------- one transaction

  predicate Matured(cfg: Config, env: Env, origins: Origins, o: Outpoint, height: int)
  {
    o in origins ==>
      && (origins[o].coinbase ==> height >= origins[o].height + cfg.coinbaseMaturity)
      && (origins[o].claim.Some? ==>
            && !env.frozen(origins[o].claim.value.classicalAddress)
            && height >= origins[o].height + (if cfg.escrowBlocks > 0 then cfg.escrowBlocks else 0))
  }

  predicate SpendValid(cfg: Config, env: Env, tx: Transaction, view: Utxos, origins: Origins, height: int)
  {
    && Distinct(tx.inputs)
    && (forall o | o in tx.inputs :: o in view)
    && env.signaturesVerify(tx, view)
    && (forall o | o in tx.inputs :: Matured(cfg, env, origins, o, height))
    && Amount(tx.outputs) + tx.fee <= Value(view, tx.inputs)
  }

  predicate ClaimValid(env: Env, tx: Transaction, claimed: set<string>, height: int)
  {
    && tx.inputs == [] && tx.fee == 0
    && tx.claim.classicalAddress != "" && tx.claim.providerId != "" && tx.claim.sourceNetwork != ""
    && env.claimAdmitted(tx, height)
    && tx.claim.classicalAddress !in claimed
    && |tx.outputs| == 1
  }

  /** One transaction against a running view; `inputless` admits the reward and genesis forms. */
  predicate TransactionValid(cfg: Config, env: Env, tx: Transaction, view: Utxos, origins: Origins,
                             claimed: set<string>, height: int, inputless: bool, maxTimestamp: int)
  {
    && tx.txId == cfg.transactionHash(tx.(txId := 0))
    && tx.chainId == cfg.chainId
    && tx.kind != OtherKind
    && 0 <= tx.timestamp <= maxTimestamp
    && tx.outputs != [] && (forall c | c in tx.outputs :: c.amount > 0)
    && tx.fee >= 0
    && if tx.kind == ClaimKind then ClaimValid(env, tx, claimed, height)
       else if tx.inputs == [] then inputless && tx.fee == 0
       else SpendValid(cfg, env, tx, view, origins, height)
  }

  // ---------------------------------------------------------------- one block

  /** The accumulators of block validation. */
  datatype Scan = Scan(view: Utxos, origins: Origins, spent: set<Outpoint>, claimed: set<string>, fees: int,
                       epochMinted: int)

  function StartScan(cfg: Config, path: seq<Block>, b: Block): Scan
  {
    Scan(UtxosOf(path), OriginsOf(path), {}, {}, 0, EpochMinted(cfg, path, EpochOf(cfg, b.index)))
  }

  /** The accumulators after transaction `k`, or nothing when it is refused. */
  function ScanStep(cfg: Config, env: Env, path: seq<Block>, b: Block, s: Scan, k: nat): Option<Scan>
    requires k < |b.transactions|
  {
    var tx := b.transactions[k];
    var claimed := Elements(ClaimsOf(path)) + s.claimed;
    if !TransactionValid(cfg, env, tx, s.view, s.origins, claimed, b.index, k == 0, b.timestamp) then None
    else if k > 0 && tx.kind != ClaimKind && exists o | o in tx.inputs :: o in s.spent then None
    else if k > 0 && tx.kind == ClaimKind && cfg.epochMintCap > 0
      && s.epochMinted + Amount(tx.outputs) > cfg.epochMintCap
    then None
    else
      Some(Scan(
        ApplyTransaction(s.view, tx),
        OriginStep(s.origins, Event(tx, OriginOf(b, k))),
        if k > 0 && tx.kind != ClaimKind then s.spent + Elements(tx.inputs) else s.spent,
        if k > 0 && tx.kind == ClaimKind then s.claimed + {tx.claim.classicalAddress} else s.claimed,
        if k > 0 then s.fees + tx.fee else s.fees,
        if k > 0 && tx.kind == ClaimKind && cfg.epochMintCap > 0 then s.epochMinted + Amount(tx.outputs)
          else s.epochMinted))
  }

  function ScanBlock(cfg: Config, env: Env, path: seq<Block>, b: Block, k: nat): Option<Scan>
    requires k <= |b.transactions|
  {
    if k == 0 then Some(StartScan(cfg, path, b))
    else
      match ScanBlock(cfg, env, path, b, k - 1)
      case None => None
      case Some(s) => ScanStep(cfg, env, path, b, s, k - 1)
  }

  function Pow16(n: nat): (r: int)
    ensures r >= 1
  {
    if n == 0 then 1 else 16 * Pow16(n - 1)
  }

  /** A 64-digit hexadecimal hash starts with this many zeros. */
  predicate ProofOfWork(hash: Hash, zeros: nat)
  {
    0 <= hash && zeros <= 64 && hash < Pow16(64 - zeros)
  }

  predicate HeaderValid(cfg: Config, env: Env, b: Block)
  {
    && b.chainId == cfg.chainId
    && 0 <= b.timestamp && (b.index != 0 ==> b.timestamp <= env.latestTime)
    && b.blockHash == cfg.blockHash(b.(blockHash := 0))
    && b.difficulty == (if b.index == 0 then 1 else cfg.difficulty)
    && ProofOfWork(b.blockHash, if b.index == 0 then 1 else cfg.difficulty)
    && b.version >= 2
    && (b.index >= cfg.stateRootActivation ==> b.version >= 3 && b.stateRoot.Some?)
    && b.transactions != []
  }

  predicate RootMatches(cfg: Config, b: Block, after: Utxos)
  {
    b.version >= 3 ==> b.stateRoot == Some(cfg.stateRoot(after))
  }

  ghost predicate GenesisValid(cfg: Config, env: Env, b: Block)
  {
    && b.index == 0 && HeaderValid(cfg, env, b)
    && b.previousHash == ZERO_HASH && b.timestamp == 0 && b.miner == GENESIS_MINER
    && |b.transactions| == 1
    && var tx := b.transactions[0];
    && tx.kind == TransferKind && tx.inputs == [] && tx.fee == 0 && tx.timestamp == 0
    && TransactionValid(cfg, env, tx, map[], map[], {}, 0, true, b.timestamp)
    && RootMatches(cfg, b, UtxosOf([b]))
    && Reconciled(cfg, [b])
  }

  predicate RewardForm(b: Block)
    requires b.transactions != []
  {
    var tx := b.transactions[0];
    tx.kind == TransferKind && tx.inputs == [] && tx.fee == 0 && |tx.outputs| == 1 && tx.outputs[0].recipient == b.miner
  }

  /** A block that is not the genesis, on the branch that ends in its parent. */
  ghost predicate BlockValid(cfg: Config, env: Env, path: seq<Block>, b: Block)
  {
    && b.index != 0 && HeaderValid(cfg, env, b)
    && path != []
    && b.previousHash == path[|path| - 1].blockHash
    && b.index == path[|path| - 1].index + 1
    && b.timestamp > path[|path| - 1].timestamp
    && RewardForm(b)
    && ScanBlock(cfg, env, path, b, |b.transactions|).Some?
    && var s := ScanBlock(cfg, env, path, b, |b.transactions|).value;
    && Amount(b.transactions[0].outputs) == Currency.SubsidyAt(cfg.policy, b.index) + s.fees
    && RootMatches(cfg, b, s.view)
    && WithinLimits(cfg, SupplyOf(cfg, path + [b]))
    && Total(s.view) == Issued(SupplyOf(cfg, path + [b]))
  }

  ghost predicate GenesisAdmitted(cfg: Config, b: Block)
  {
    exists env :: GenesisValid(cfg, env, b)
  }

  ghost predicate Admitted(cfg: Config, path: seq<Block>, b: Block)
  {
    exists env :: BlockValid(cfg, env, path, b)
  }

  /** A branch as any node may have stored it: each block was valid in whatever environment it met. */
  ghost predicate BranchValid(cfg: Config, path: seq<Block>)
  {
    if |path| == 0 then false
    else if |path| == 1 then GenesisAdmitted(cfg, path[0])
    else
      var front := path[..|path| - 1];
      BranchValid(cfg, front) && Admitted(cfg, front, path[|path| - 1])
  }
}
