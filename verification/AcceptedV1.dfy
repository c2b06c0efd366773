/** What holds of every accepted version 0.1 block and of its transactions, read off the block and its branch. */
module AcceptedV1 {
  import opened Results
  import opened Collections
  import opened Coins
  import Currency
  import Numerals
  import opened ChainV1
  import opened BranchesV1
  import opened LimitsV1

  /** The live outputs that transaction `k` of a block on a branch meets. */
  function LiveAt(path: seq<Block>, b: Block, k: nat): Utxos
    requires k <= |b.transactions|
  {
    ApplyTransactions(UtxosOf(path), b.transactions[..k])
  }

  lemma AcceptedMeets(cfg: Config, env: Env, path: seq<Block>, b: Block, k: nat)
    requires BlockValid(cfg, env, path, b) && k < |b.transactions|
    ensures ScanBlock(cfg, env, path, b, k).Some?
    ensures var s := ScanBlock(cfg, env, path, b, k).value;
            && s.view == LiveAt(path, b, k)
            && TransactionValid(cfg, env, b.transactions[k], s.view, s.origins,
                                Elements(ClaimsOf(path)) + s.claimed, b.index, k == 0, b.timestamp)
  {
    hide TransactionValid, ApplyTransactions, UtxosOf, OriginsOf, Events, ClaimsOf, SupplyOf, Total, HeaderValid,
         ScanStep;
    ScanPrefix(cfg, env, path, b, k, |b.transactions|);
    ScanPrefix(cfg, env, path, b, k + 1, |b.transactions|);
    ScanIsReplay(cfg, env, path, b, k);
    StepReads(cfg, env, path, b, k);
  }

  /** What the transaction rules say of a transaction with inputs. */
  lemma SpendMeans(cfg: Config, env: Env, tx: Transaction, view: Utxos, origins: Origins, claimed: set<string>,
                   height: int, inputless: bool, maxTimestamp: int)
    requires TransactionValid(cfg, env, tx, view, origins, claimed, height, inputless, maxTimestamp)
    ensures tx.inputs != [] ==>
              && tx.kind == TransferKind && env.signaturesVerify(tx, view)
              && (forall i | 0 <= i < |tx.inputs| :: tx.inputs[i] in view)
              && (forall i, j | 0 <= i < j < |tx.inputs| :: tx.inputs[i] != tx.inputs[j])
  {
  }

  /** Every spend of an accepted block passed signature verification against the outputs that were live when it was
      its turn: the replay of the branch and of the transactions before it. */
  lemma SpendsVerified(cfg: Config, env: Env, path: seq<Block>, b: Block, k: nat)
    requires BlockValid(cfg, env, path, b) && k < |b.transactions| && b.transactions[k].inputs != []
    ensures var tx := b.transactions[k];
            && env.signaturesVerify(tx, ApplyTransactions(UtxosOf(path), b.transactions[..k]))
            && (forall i | 0 <= i < |tx.inputs| :: tx.inputs[i] in LiveAt(path, b, k))
            && (forall i, j | 0 <= i < j < |tx.inputs| :: tx.inputs[i] != tx.inputs[j])
  {
    hide BlockValid, ScanBlock, TransactionValid, ApplyTransactions, UtxosOf, ClaimsOf;
    AcceptedMeets(cfg, env, path, b, k);
    var s := ScanBlock(cfg, env, path, b, k).value;
    SpendMeans(cfg, env, b.transactions[k], s.view, s.origins, Elements(ClaimsOf(path)) + s.claimed, b.index, k == 0,
               b.timestamp);
  }

  /** What the transaction rules say of every transaction, and of a claim. */
  lemma TransactionMeans(cfg: Config, env: Env, tx: Transaction, view: Utxos, origins: Origins, claimed: set<string>,
                         height: int, inputless: bool, maxTimestamp: int)
    requires TransactionValid(cfg, env, tx, view, origins, claimed, height, inputless, maxTimestamp)
    ensures tx.txId == cfg.transactionHash(tx.(txId := 0)) && tx.chainId == cfg.chainId
    ensures 0 <= tx.timestamp <= maxTimestamp && tx.fee >= 0
    ensures tx.outputs != [] && forall c | c in tx.outputs :: c.amount > 0
    ensures tx.kind == TransferKind || tx.kind == ClaimKind
    ensures tx.kind == TransferKind && !inputless ==> tx.inputs != []
    ensures tx.kind == ClaimKind ==>
              && env.claimAdmitted(tx, height) && tx.inputs == [] && tx.fee == 0 && |tx.outputs| == 1
              && tx.claim.classicalAddress != "" && tx.claim.providerId != "" && tx.claim.sourceNetwork != ""
              && tx.claim.classicalAddress !in claimed
  {
  }

  /** Every transaction of an accepted block belongs to the chain, commits to its content and pays positive amounts,
      none but the reward creates coins without a claim, and every claim was admitted by the migration rules, mints one
      output and names an address that the branch never claimed. */
  lemma TransactionsAreSound(cfg: Config, env: Env, path: seq<Block>, b: Block, k: nat)
    requires BlockValid(cfg, env, path, b) && k < |b.transactions|
    ensures var tx := b.transactions[k];
            && tx.txId == cfg.transactionHash(tx.(txId := 0)) && tx.chainId == cfg.chainId
            && 0 <= tx.timestamp <= b.timestamp && tx.fee >= 0
            && tx.outputs != [] && (forall c | c in tx.outputs :: c.amount > 0)
            && (tx.kind == TransferKind || tx.kind == ClaimKind)
            && (tx.kind == TransferKind && k > 0 ==> tx.inputs != [])
            && (tx.kind == ClaimKind ==>
                  && env.claimAdmitted(tx, b.index) && tx.inputs == [] && tx.fee == 0 && |tx.outputs| == 1
                  && tx.claim.classicalAddress != "" && tx.claim.providerId != "" && tx.claim.sourceNetwork != ""
                  && tx.claim.classicalAddress !in ClaimsOf(path))
  {
    hide BlockValid, ScanBlock, TransactionValid, ApplyTransactions, UtxosOf, ClaimsOf;
    AcceptedMeets(cfg, env, path, b, k);
    var s := ScanBlock(cfg, env, path, b, k).value;
    TransactionMeans(cfg, env, b.transactions[k], s.view, s.origins, Elements(ClaimsOf(path)) + s.claimed, b.index,
                     k == 0, b.timestamp);
  }

  // ---------------------------------------------------------------- the block

  function Fees(txs: seq<Transaction>): int
  {
    if txs == [] then 0 else Fees(txs[..|txs| - 1]) + txs[|txs| - 1].fee
  }

  lemma {:induction false} ScanSumsFees(cfg: Config, env: Env, path: seq<Block>, b: Block, k: nat)
    requires k <= |b.transactions| && ScanBlock(cfg, env, path, b, k).Some?
    requires b.transactions != [] && b.transactions[0].fee == 0
    ensures ScanBlock(cfg, env, path, b, k).value.fees == Fees(b.transactions[..k])
  {
    hide ScanStep, TransactionValid, ApplyTransaction, OriginStep, UtxosOf, OriginsOf, Events, ClaimsOf, EpochMinted;
    if k > 0 {
      StepReads(cfg, env, path, b, k - 1);
      ScanSumsFees(cfg, env, path, b, k - 1);
      assert b.transactions[..k][..k - 1] == b.transactions[..k - 1];
    }
  }

  lemma AmountOfOne(c: Coin)
    ensures Amount([c]) == c.amount
  {
    assert [c][..0] == [];
  }

  /** The first transaction pays the miner the height's subsidy and all fees of the block, in one output. */
  lemma RewardIsSubsidyAndFees(cfg: Config, env: Env, path: seq<Block>, b: Block)
    requires BlockValid(cfg, env, path, b)
    ensures b.transactions != [] && b.transactions[0].inputs == []
    ensures b.transactions[0].outputs
            == [Coin(b.miner, Currency.SubsidyAt(cfg.policy, b.index) + Fees(b.transactions))]
  {
    hide TransactionValid, ScanBlock, ApplyTransactions, UtxosOf, OriginsOf, Events, ClaimsOf, SupplyOf, Total, Fees,
         Currency.SubsidyAt, Amount;
    ScanSumsFees(cfg, env, path, b, |b.transactions|);
    assert b.transactions[..|b.transactions|] == b.transactions;
    var outputs := b.transactions[0].outputs;
    assert outputs == [outputs[0]];
    AmountOfOne(outputs[0]);
  }

  lemma {:induction false} PowerSplits(a: nat, b: nat)
    ensures Pow16(a + b) == Pow16(a) * Pow16(b)
  {
    if a > 0 { PowerSplits(a - 1, b); }
  }

  lemma WorkMeans(hash: Hash, zeros: nat)
    requires ProofOfWork(hash, zeros)
    ensures 0 <= hash && hash * Pow16(zeros) < Pow16(64)
  {
    hide Pow16;
    PowerSplits(64 - zeros, zeros);
    Numerals.ProductGrows(hash, Pow16(64 - zeros), Pow16(zeros));
  }

  /** An accepted block extends the last of its branch by one height and rises in time, its hash commits to its content
      and carries the configured work, and from version 3 on it commits to the outputs that are live after it. */
  lemma BlockIsSound(cfg: Config, env: Env, path: seq<Block>, b: Block)
    requires BlockValid(cfg, env, path, b)
    ensures path != [] && b.previousHash == path[|path| - 1].blockHash && b.index == path[|path| - 1].index + 1
    ensures path[|path| - 1].timestamp < b.timestamp <= env.latestTime
    ensures b.chainId == cfg.chainId && b.version >= 2 && b.difficulty == cfg.difficulty
    ensures b.blockHash == cfg.blockHash(b.(blockHash := 0))
    ensures 0 <= b.blockHash && b.blockHash * Pow16(cfg.difficulty) < Pow16(64)
    ensures b.version >= 3 ==> b.stateRoot == Some(cfg.stateRoot(UtxosOf(path + [b])))
    ensures b.index >= cfg.stateRootActivation ==> b.version >= 3
  {
    hide TransactionValid, ScanBlock, UtxosOf, OriginsOf, SupplyOf, Total, Pow16, ProofOfWork;
    WorkMeans(b.blockHash, cfg.difficulty);
    AcceptedViewIsReplay(cfg, env, path, b);
  }

  /** An accepted genesis starts a chain: nothing before it, one inputless transfer of positive outputs, a hash that
      commits to its content with one zero digit, and from version 3 on a state root over its outputs. */
  lemma GenesisIsSound(cfg: Config, env: Env, b: Block)
    requires GenesisValid(cfg, env, b)
    ensures b.index == 0 && b.previousHash == 0 && b.timestamp == 0 && b.miner == "genesis" && b.chainId == cfg.chainId
    ensures b.version >= 2 && b.difficulty == 1 && b.blockHash == cfg.blockHash(b.(blockHash := 0))
    ensures 0 <= b.blockHash && b.blockHash * 16 < Pow16(64)
    ensures |b.transactions| == 1
    ensures var tx := b.transactions[0];
            && tx.kind == TransferKind && tx.inputs == [] && tx.fee == 0 && tx.timestamp == 0
            && tx.txId == cfg.transactionHash(tx.(txId := 0)) && tx.chainId == cfg.chainId
            && tx.outputs != [] && forall c | c in tx.outputs :: c.amount > 0
    ensures b.version >= 3 ==> b.stateRoot == Some(cfg.stateRoot(UtxosOf([b])))
    ensures 0 >= cfg.stateRootActivation ==> b.version >= 3
  {
    hide TransactionValid, UtxosOf, SupplyOf, Total, ProofOfWork, Pow16;
    WorkMeans(b.blockHash, 1);
    assert Pow16(1) == 16 by { SixteenReads(); }
    TransactionMeans(cfg, env, b.transactions[0], map[], map[], {}, 0, true, b.timestamp);
  }

  lemma SixteenReads()
    ensures Pow16(1) == 16
  {
    assert Pow16(1) == 16 * Pow16(0);
  }

  /** Every accepted block past the genesis satisfies on its branch what does not depend on the accepting node. */
  lemma {:induction false} BranchIsSound(cfg: Config, path: seq<Block>, i: nat)
    requires BranchValid(cfg, path) && 0 < i < |path|
    ensures var b, parent := path[i], path[i - 1];
            && b.previousHash == parent.blockHash && b.index == parent.index + 1 && parent.timestamp < b.timestamp
            && b.chainId == cfg.chainId && b.version >= 2 && b.blockHash == cfg.blockHash(b.(blockHash := 0))
            && 0 <= b.blockHash && b.blockHash * Pow16(cfg.difficulty) < Pow16(64)
            && (b.version >= 3 ==> b.stateRoot == Some(cfg.stateRoot(UtxosOf(path[..i + 1]))))
            && (b.index >= cfg.stateRootActivation ==> b.version >= 3)
            && b.transactions != []
            && b.transactions[0].outputs
               == [Coin(b.miner, Currency.SubsidyAt(cfg.policy, b.index) + Fees(b.transactions))]
    decreases |path|
  {
    hide BlockValid, GenesisAdmitted, UtxosOf, Pow16, Fees, Currency.SubsidyAt;
    var front := path[..|path| - 1];
    if i < |path| - 1 {
      BranchIsSound(cfg, front, i);
      assert front[..i + 1] == path[..i + 1];
    } else {
      var env :| BlockValid(cfg, env, front, path[i]);
      BlockIsSound(cfg, env, front, path[i]);
      RewardIsSubsidyAndFees(cfg, env, front, path[i]);
      assert front + [path[i]] == path[..i + 1];
    }
  }

  // ---------------------------------------------------------------- issuance

  /** What the migration claims among these transactions pay. */
  function ClaimValue(txs: seq<Transaction>): int
  {
    if txs == [] then 0 else (if txs[0].kind == ClaimKind then Amount(txs[0].outputs) else 0) + ClaimValue(txs[1..])
  }

  /** What they pay in the blocks at heights `lo` up to and without `hi`. */
  function ClaimValueBetween(path: seq<Block>, lo: nat, hi: nat): int
    requires hi <= |path|
    decreases hi
  {
    if hi <= lo then 0 else ClaimValueBetween(path, lo, hi - 1) + ClaimValue(path[hi - 1].transactions)
  }

  lemma {:induction false} ClaimValueSnoc(txs: seq<Transaction>, tx: Transaction)
    ensures ClaimValue(txs + [tx]) == ClaimValue(txs) + if tx.kind == ClaimKind then Amount(tx.outputs) else 0
  {
    if txs == [] {
      assert [] + [tx] == [tx] && [tx][1..] == [];
    } else {
      assert (txs + [tx])[1..] == txs[1..] + [tx];
      ClaimValueSnoc(txs[1..], tx);
    }
  }

  lemma {:induction false} MintedIsClaimValue(txs: seq<Transaction>)
    ensures MintedIn(txs) == ClaimValue(txs)
  {
    if txs != [] {
      MintedIsClaimValue(txs[..|txs| - 1]);
      ClaimValueSnoc(txs[..|txs| - 1], txs[|txs| - 1]);
      assert txs[..|txs| - 1] + [txs[|txs| - 1]] == txs;
    }
  }

  lemma {:induction false} BetweenPrefix(path: seq<Block>, lo: nat, hi: nat, n: nat)
    requires hi <= n <= |path|
    ensures ClaimValueBetween(path[..n], lo, hi) == ClaimValueBetween(path, lo, hi)
    decreases hi
  {
    if lo < hi { BetweenPrefix(path, lo, hi - 1, n); }
  }

  /** The first transaction of an accepted block is no claim. */
  lemma BranchForm(cfg: Config, path: seq<Block>)
    requires BranchValid(cfg, path)
    ensures path != []
    ensures var b := path[|path| - 1];
            b.index == |path| - 1 && b.transactions != [] && b.transactions[0].kind == TransferKind
    ensures |path| == 1 ==> |path[0].transactions| == 1
    ensures |path| > 1 ==> BranchValid(cfg, path[..|path| - 1])
  {
    hide GenesisValid, BlockValid;
    BranchHeights(cfg, path, |path| - 1);
    if |path| == 1 {
      var env :| GenesisValid(cfg, env, path[0]);
      GenesisIndex(cfg, env, path[0]);
    } else {
      var env :| BlockValid(cfg, env, path[..|path| - 1], path[|path| - 1]);
      BlockIndex(cfg, env, path[..|path| - 1], path[|path| - 1]);
    }
  }

  lemma {:induction false} EpochIsWindow(cfg: Config, path: seq<Block>, lo: nat, epoch: nat)
    requires BranchValid(cfg, path) && lo == epoch * EpochLength(cfg)
    ensures EpochMinted(cfg, path, epoch)
            == ClaimValueBetween(path, lo, if |path| < lo + EpochLength(cfg) then |path| else lo + EpochLength(cfg))
  {
    hide BranchValid, ClaimValue, MintedIn;
    BranchForm(cfg, path);
    var n := |path| - 1;
    var b, end := path[n], lo + EpochLength(cfg);
    MintedIsClaimValue(b.transactions);
    if n == 0 {
      assert path[..0] == [];
    } else {
      EpochIsWindow(cfg, path[..n], lo, epoch);
      BetweenPrefix(path, lo, if n < end then n else end, n);
    }
  }

  /** On every accepted branch, whatever the claims pay within any epoch's run of heights stays within a positive epoch
      cap; an epoch length below one counts as one. */
  lemma EpochsAreCapped(cfg: Config, path: seq<Block>, epoch: nat)
    requires BranchValid(cfg, path) && cfg.epochMintCap > 0
    ensures var length := if cfg.epochLength > 1 then cfg.epochLength else 1;
            var lo := epoch * length;
            lo >= 0 && ClaimValueBetween(path, lo, if |path| < lo + length then |path| else lo + length)
                       <= cfg.epochMintCap
  {
    hide BranchValid, EpochMinted, ClaimValueBetween;
    var lo := epoch * EpochLength(cfg);
    assert lo >= 0;
    EpochsWithinCap(cfg, path, epoch);
    EpochIsWindow(cfg, path, lo, epoch);
  }

  lemma {:induction false} SupplyIsIssued(cfg: Config, path: seq<Block>)
    requires BranchValid(cfg, path)
    ensures SupplyOf(cfg, path).genesis == OutputsIn(path[0].transactions)
    ensures SupplyOf(cfg, path).minted == ClaimValueBetween(path, 1, |path|)
  {
    hide BranchValid, ClaimValue, MintedIn, OutputsIn, Currency.SubsidyAt;
    BranchForm(cfg, path);
    var n := |path| - 1;
    if n == 0 {
      assert path[..0] == [];
    } else {
      SupplyIsIssued(cfg, path[..n]);
      BetweenPrefix(path, 1, n, n);
      assert ClaimValue(path[n].transactions) == MintedIn(path[n].transactions[1..]) by {
        MintedIsClaimValue(path[n].transactions[1..]);
        HeadClaim(path[n].transactions);
      }
    }
  }

  lemma HeadClaim(txs: seq<Transaction>)
    requires txs != [] && txs[0].kind != ClaimKind
    ensures ClaimValue(txs) == ClaimValue(txs[1..])
  {
  }

  /** On every accepted branch the live outputs carry exactly the genesis outputs, the subsidies of all heights and what
      claims paid, and past the genesis each of the three, and their sum, stays within its configured cap. */
  lemma IssuanceIsCapped(cfg: Config, path: seq<Block>)
    requires BranchValid(cfg, path)
    ensures var genesis, claims := OutputsIn(path[0].transactions), ClaimValueBetween(path, 1, |path|);
            var subsidies := Currency.SumSubsidies(cfg.policy, |path| - 1);
            && Total(UtxosOf(path)) == genesis + subsidies + claims
            && (|path| > 1 ==>
                  && (cfg.genesisCap > 0 ==> genesis <= cfg.genesisCap)
                  && (cfg.policy.emissionCap > 0 ==> subsidies <= cfg.policy.emissionCap)
                  && (cfg.poolCap > 0 ==> claims <= cfg.poolCap)
                  && genesis + subsidies + claims <= cfg.maxMoney)
  {
    hide BranchValid, UtxosOf, Total, SupplyOf, OutputsIn, ClaimValueBetween;
    BranchForm(cfg, path);
    BranchReconciled(cfg, path);
    SubsidyIsSum(cfg, path);
    SupplyIsIssued(cfg, path);
    if |path| > 1 {
      assert path[..|path|] == path;
      SupplyWithinCaps(cfg, path, |path|);
    }
  }
}
