/** What holds on every version 0.1 branch that nodes accept. */
module BranchesV1 {
  import opened Collections
  import opened Coins
  import Currency
  import opened ChainV1

  // ---------------------------------------------------------------- validation's view is the replay

  lemma {:induction false} ScanPrefix(cfg: Config, env: Env, path: seq<Block>, b: Block, k: nat, n: nat)
    requires k <= n <= |b.transactions| && ScanBlock(cfg, env, path, b, n).Some?
    ensures ScanBlock(cfg, env, path, b, k).Some?
    ensures k < n ==> ScanStep(cfg, env, path, b, ScanBlock(cfg, env, path, b, k).value, k).Some?
    decreases n
  {
    if k < n - 1 {
      ScanPrefix(cfg, env, path, b, k, n - 1);
    }
  }

  /** What one accepted transaction establishes and changes. */
  lemma StepReads(cfg: Config, env: Env, path: seq<Block>, b: Block, k: nat)
    requires k < |b.transactions| && ScanBlock(cfg, env, path, b, k + 1).Some?
    ensures ScanBlock(cfg, env, path, b, k).Some?
    ensures var s, next := ScanBlock(cfg, env, path, b, k).value, ScanBlock(cfg, env, path, b, k + 1).value;
            var tx := b.transactions[k];
            && TransactionValid(cfg, env, tx, s.view, s.origins, Elements(ClaimsOf(path)) + s.claimed, b.index,
                                k == 0, b.timestamp)
            && next.view == ApplyTransaction(s.view, tx)
            && next.origins == OriginStep(s.origins, Event(tx, OriginOf(b, k)))
            && next.fees == s.fees + (if k > 0 then tx.fee else 0)
  {
    hide TransactionValid, ApplyTransaction, OriginStep, Elements;
  }

  /** An accepted transaction has positive outputs, spends distinct live inputs, and never more than they carry. */
  lemma AcceptedMeans(cfg: Config, env: Env, tx: Transaction, view: Utxos, origins: Origins, claimed: set<string>,
                      height: int, inputless: bool, maxTimestamp: int)
    requires TransactionValid(cfg, env, tx, view, origins, claimed, height, inputless, maxTimestamp)
    ensures forall c | c in tx.outputs :: c.amount > 0
    ensures Distinct(tx.inputs) && forall o | o in tx.inputs :: o in view
    ensures tx.kind == TransferKind || tx.kind == ClaimKind
    ensures tx.kind == ClaimKind ==> tx.inputs == [] && tx.fee == 0
    ensures tx.inputs == [] ==> tx.fee == 0
    ensures tx.kind == TransferKind && !inputless ==> tx.inputs != []
    ensures tx.inputs != [] ==> Amount(tx.outputs) + tx.fee <= Value(view, tx.inputs)
  {
  }

  /** The validator's running view is the storage replay of the transactions seen so far. */
  lemma {:induction false} ScanIsReplay(cfg: Config, env: Env, path: seq<Block>, b: Block, k: nat)
    requires k <= |b.transactions| && ScanBlock(cfg, env, path, b, k).Some?
    ensures var s := ScanBlock(cfg, env, path, b, k).value;
            && s.view == ApplyTransactions(UtxosOf(path), b.transactions[..k])
            && s.origins == FoldOrigins(Events(path) + BlockEvents(b, k))
  {
    hide ScanStep, TransactionValid, ApplyTransaction, OriginStep, UtxosOf, Events;
    if k > 0 {
      StepReads(cfg, env, path, b, k - 1);
      ScanIsReplay(cfg, env, path, b, k - 1);
      assert b.transactions[..k][..k - 1] == b.transactions[..k - 1];
      var events := Events(path) + BlockEvents(b, k);
      assert events[..|events| - 1] == Events(path) + BlockEvents(b, k - 1);
    } else {
      assert Events(path) + BlockEvents(b, 0) == Events(path);
    }
  }

  /** After the last transaction it is the replay of the whole branch. */
  lemma AcceptedViewIsReplay(cfg: Config, env: Env, path: seq<Block>, b: Block)
    requires ScanBlock(cfg, env, path, b, |b.transactions|).Some?
    ensures var s := ScanBlock(cfg, env, path, b, |b.transactions|).value;
            s.view == UtxosOf(path + [b]) && s.origins == OriginsOf(path + [b])
  {
    ScanIsReplay(cfg, env, path, b, |b.transactions|);
    assert (path + [b])[..|path|] == path;
    assert b.transactions[..|b.transactions|] == b.transactions;
  }

  // ---------------------------------------------------------------- conservation

  lemma ApplyPositive(m: Utxos, tx: Transaction)
    requires Positive(m) && forall c | c in tx.outputs :: c.amount > 0
    ensures Positive(ApplyTransaction(m, tx))
  {
    WithOutputsContent(Without(m, tx.inputs), tx.txId, tx.outputs);
  }

  lemma {:induction false} ScanPositive(cfg: Config, env: Env, path: seq<Block>, b: Block, k: nat)
    requires Positive(UtxosOf(path)) && k <= |b.transactions| && ScanBlock(cfg, env, path, b, k).Some?
    ensures Positive(ScanBlock(cfg, env, path, b, k).value.view)
  {
    hide ScanStep, TransactionValid, ApplyTransaction, OriginStep, UtxosOf, Positive;
    if k > 0 {
      var s, tx := ScanBlock(cfg, env, path, b, k - 1).value, b.transactions[k - 1];
      ScanPositive(cfg, env, path, b, k - 1);
      StepReads(cfg, env, path, b, k - 1);
      AcceptedMeans(cfg, env, tx, s.view, s.origins, Elements(ClaimsOf(path)) + s.claimed, b.index,
                    k == 1, b.timestamp);
      ApplyPositive(s.view, tx);
    }
  }

  /** What a transaction loses: live value its outputs overwrite, and what a transfer spends beyond its outputs
      and fee. The transaction rules alone only make this non-negative. */
  ghost function Loss(view: Utxos, tx: Transaction, reward: bool): int
  {
    Overwritten(Without(view, tx.inputs), tx.txId, tx.outputs)
    + if tx.kind == ClaimKind || reward then 0 else Value(view, tx.inputs) - Amount(tx.outputs) - tx.fee
  }

  ghost function LossUpTo(cfg: Config, env: Env, path: seq<Block>, b: Block, k: nat): int
    requires k <= |b.transactions| && ScanBlock(cfg, env, path, b, k).Some?
  {
    if k == 0 then 0
    else
      LossUpTo(cfg, env, path, b, k - 1)
      + Loss(ScanBlock(cfg, env, path, b, k - 1).value.view, b.transactions[k - 1], k == 1)
  }

  lemma LossNonNegative(cfg: Config, env: Env, path: seq<Block>, b: Block, k: nat)
    requires k < |b.transactions| && ScanBlock(cfg, env, path, b, k + 1).Some? && ScanBlock(cfg, env, path, b, k).Some?
    requires Positive(ScanBlock(cfg, env, path, b, k).value.view)
    ensures Loss(ScanBlock(cfg, env, path, b, k).value.view, b.transactions[k], k == 0) >= 0
  {
    hide ScanStep, ScanBlock, TransactionValid, Overwritten;
    var s, tx := ScanBlock(cfg, env, path, b, k).value, b.transactions[k];
    StepReads(cfg, env, path, b, k);
    AcceptedMeans(cfg, env, tx, s.view, s.origins, Elements(ClaimsOf(path)) + s.claimed, b.index, k == 0, b.timestamp);
    OverwrittenNothing(Without(s.view, tx.inputs), tx.txId, tx.outputs);
  }

  lemma {:induction false} LossMonotone(cfg: Config, env: Env, path: seq<Block>, b: Block, k: nat, n: nat)
    requires k <= n <= |b.transactions| && ScanBlock(cfg, env, path, b, n).Some?
    requires Positive(UtxosOf(path))
    ensures ScanBlock(cfg, env, path, b, k).Some?
    ensures 0 <= LossUpTo(cfg, env, path, b, k) <= LossUpTo(cfg, env, path, b, n)
    decreases n
  {
    hide ScanStep, TransactionValid, Loss, Positive, UtxosOf;
    ScanPrefix(cfg, env, path, b, k, n);
    if n > 0 {
      ScanPrefix(cfg, env, path, b, n - 1, n);
      ScanPositive(cfg, env, path, b, n - 1);
      LossNonNegative(cfg, env, path, b, n - 1);
      LossMonotone(cfg, env, path, b, if k < n then k else n - 1, n - 1);
    }
  }

  /** One transaction moves the live total by its outputs, less its inputs and what it overwrites. */
  lemma StepTotal(view: Utxos, tx: Transaction)
    requires Distinct(tx.inputs) && forall o | o in tx.inputs :: o in view
    ensures Total(ApplyTransaction(view, tx))
            == Total(view) - Value(view, tx.inputs) + Amount(tx.outputs)
               - Overwritten(Without(view, tx.inputs), tx.txId, tx.outputs)
  {
    TotalWithout(view, tx.inputs);
    TotalWithOutputs(Without(view, tx.inputs), tx.txId, tx.outputs);
  }

  /** The books of a partly scanned block balance once losses are counted. */
  lemma {:induction false} ScanBalances(cfg: Config, env: Env, path: seq<Block>, b: Block, k: nat)
    requires b.transactions != [] && RewardForm(b)
    requires k <= |b.transactions| && ScanBlock(cfg, env, path, b, k).Some?
    ensures var s := ScanBlock(cfg, env, path, b, k).value;
            Total(s.view) + LossUpTo(cfg, env, path, b, k) + s.fees
            == Total(UtxosOf(path)) + (if k > 0 then Amount(b.transactions[0].outputs) else 0)
               + MintedIn(b.transactions[..k])
  {
    hide ScanStep, TransactionValid, ApplyTransaction, OriginStep, UtxosOf, Total, Amount, Overwritten;
    if k > 0 {
      var s, tx := ScanBlock(cfg, env, path, b, k - 1).value, b.transactions[k - 1];
      ScanBalances(cfg, env, path, b, k - 1);
      StepReads(cfg, env, path, b, k - 1);
      AcceptedMeans(cfg, env, tx, s.view, s.origins, Elements(ClaimsOf(path)) + s.claimed, b.index,
                    k == 1, b.timestamp);
      assert b.transactions[..k][..k - 1] == b.transactions[..k - 1];
      StepTotal(s.view, tx);
      assert tx.inputs == [] ==> Value(s.view, tx.inputs) == 0;
    }
  }

  lemma {:induction false} MintedTail(txs: seq<Transaction>)
    requires txs != [] && txs[0].kind != ClaimKind
    ensures MintedIn(txs[1..]) == MintedIn(txs)
  {
    if |txs| > 1 {
      MintedTail(txs[..|txs| - 1]);
      assert txs[1..][..|txs| - 2] == txs[..|txs| - 1][1..];
    }
  }

  lemma IssuedGrows(cfg: Config, path: seq<Block>, b: Block)
    requires b.index != 0 && b.transactions != [] && RewardForm(b)
    ensures Issued(SupplyOf(cfg, path + [b]))
            == Issued(SupplyOf(cfg, path)) + Currency.SubsidyAt(cfg.policy, b.index) + MintedIn(b.transactions)
  {
    assert (path + [b])[..|path|] == path;
    MintedTail(b.transactions);
  }

  /** A transaction conserves value exactly and overwrites nothing. */
  ghost predicate Conserves(view: Utxos, tx: Transaction, reward: bool)
  {
    && (tx.kind == TransferKind && !reward ==> Value(view, tx.inputs) == Amount(tx.outputs) + tx.fee)
    && forall i | 0 <= i < |tx.outputs| :: Outpoint(tx.txId, i) !in Without(view, tx.inputs)
  }

  lemma LossIsZero(view: Utxos, tx: Transaction, reward: bool)
    requires Positive(view) && Loss(view, tx, reward) == 0
    requires tx.kind == ClaimKind || reward || Amount(tx.outputs) + tx.fee <= Value(view, tx.inputs)
    ensures Conserves(view, tx, reward)
  {
    OverwrittenNothing(Without(view, tx.inputs), tx.txId, tx.outputs);
  }

  /** Over a whole accepted block on a reconciled branch nothing is lost. */
  lemma NothingLost(cfg: Config, env: Env, path: seq<Block>, b: Block)
    requires BlockValid(cfg, env, path, b) && Reconciled(cfg, path)
    ensures LossUpTo(cfg, env, path, b, |b.transactions|) == 0
  {
    hide ScanBlock, RootMatches, WithinLimits, Total, UtxosOf, SupplyOf, Issued, LossUpTo, MintedIn, Amount;
    ScanBalances(cfg, env, path, b, |b.transactions|);
    IssuedGrows(cfg, path, b);
    assert b.transactions[..|b.transactions|] == b.transactions;
  }

  /** In every accepted block on a reconciled branch each transfer's inputs equal its outputs plus its fee, and no
      new output overwrites a live outpoint: block-level reconciliation turns the inequality into an equality. */
  lemma AcceptedBlockConserves(cfg: Config, env: Env, path: seq<Block>, b: Block, k: nat)
    requires BlockValid(cfg, env, path, b) && Reconciled(cfg, path) && Positive(UtxosOf(path))
    requires k < |b.transactions|
    ensures ScanBlock(cfg, env, path, b, k).Some?
    ensures Conserves(ScanBlock(cfg, env, path, b, k).value.view, b.transactions[k], k == 0)
  {
    hide ScanStep, TransactionValid, HeaderValid, RootMatches, WithinLimits, Total, UtxosOf, SupplyOf, Loss, Positive,
      Conserves;
    var n := |b.transactions|;
    ScanPrefix(cfg, env, path, b, k, n);
    ScanPrefix(cfg, env, path, b, k + 1, n);
    NothingLost(cfg, env, path, b);
    LossMonotone(cfg, env, path, b, k + 1, n);
    LossMonotone(cfg, env, path, b, k, n);
    ScanPositive(cfg, env, path, b, k);
    LossNonNegative(cfg, env, path, b, k);
    StepReads(cfg, env, path, b, k);
    var s, tx := ScanBlock(cfg, env, path, b, k).value, b.transactions[k];
    AcceptedMeans(cfg, env, tx, s.view, s.origins, Elements(ClaimsOf(path)) + s.claimed, b.index, k == 0, b.timestamp);
    LossIsZero(s.view, tx, k == 0);
  }

  lemma GenesisReconciled(cfg: Config, env: Env, b: Block)
    requires GenesisValid(cfg, env, b)
    ensures Reconciled(cfg, [b]) && Positive(UtxosOf([b]))
  {
    hide HeaderValid, RootMatches, Reconciled, ApplyTransaction;
    var tx := b.transactions[0];
    AcceptedMeans(cfg, env, tx, map[], map[], {}, 0, true, b.timestamp);
    ApplyPositive(map[], tx);
    assert [b][..0] == [] && b.transactions[..0] == [] && b.transactions == [tx];
    assert UtxosOf([]) == map[] && UtxosOf([b]) == ApplyTransactions(map[], [tx]);
    assert [tx][..0] == [];
  }

  lemma BlockReconciled(cfg: Config, env: Env, path: seq<Block>, b: Block)
    requires BlockValid(cfg, env, path, b) && Positive(UtxosOf(path))
    ensures Reconciled(cfg, path + [b]) && Positive(UtxosOf(path + [b]))
  {
    hide ScanBlock, HeaderValid, RootMatches, WithinLimits, Total, UtxosOf, SupplyOf, Positive, OriginsOf;
    AcceptedViewIsReplay(cfg, env, path, b);
    ScanPositive(cfg, env, path, b, |b.transactions|);
  }

  /** Every accepted branch is reconciled, with positive outputs only. */
  lemma {:induction false} BranchReconciled(cfg: Config, path: seq<Block>)
    requires BranchValid(cfg, path)
    ensures Reconciled(cfg, path) && Positive(UtxosOf(path))
  {
    hide GenesisValid, BlockValid, Reconciled, UtxosOf, Positive;
    var b := path[|path| - 1];
    if |path| == 1 {
      var env :| GenesisValid(cfg, env, path[0]);
      GenesisReconciled(cfg, env, b);
      assert path == [b];
    } else {
      var front := path[..|path| - 1];
      BranchReconciled(cfg, front);
      var env :| BlockValid(cfg, env, front, b);
      BlockReconciled(cfg, env, front, b);
      assert front + [b] == path;
    }
  }

  lemma {:induction false} PrefixValid(cfg: Config, path: seq<Block>, n: nat)
    requires BranchValid(cfg, path) && 0 < n <= |path|
    ensures BranchValid(cfg, path[..n])
    decreases |path|
  {
    hide GenesisAdmitted, Admitted;
    if n < |path| {
      PrefixValid(cfg, path[..|path| - 1], n);
      assert path[..|path| - 1][..n] == path[..n];
    } else {
      assert path[..n] == path;
    }
  }

  /** Conservation on every accepted branch, at every transaction of every block above the genesis. */
  lemma BranchConserves(cfg: Config, path: seq<Block>, n: nat, k: nat)
    requires BranchValid(cfg, path) && 0 < n < |path| && k < |path[n].transactions|
    ensures Conserves(ApplyTransactions(UtxosOf(path[..n]), path[n].transactions[..k]), path[n].transactions[k], k == 0)
  {
    hide BlockValid, Reconciled, UtxosOf, Positive, Conserves;
    PrefixValid(cfg, path, n + 1);
    var upTo, front, b := path[..n + 1], path[..n], path[n];
    assert upTo[..n] == front && upTo[n] == b;
    BranchReconciled(cfg, front);
    var env :| BlockValid(cfg, env, front, b);
    AcceptedBlockConserves(cfg, env, front, b, k);
    ScanIsReplay(cfg, env, front, b, k);
  }

  /** The transaction rules alone do not force it: they admit a transfer that spends 2 and pays 1 without a fee. */
  lemma TransactionRulesAllowLoss(cfg: Config, env: Env, o: Outpoint) returns (tx: Transaction, view: Utxos)
    requires forall t, v :: env.signaturesVerify(t, v)
    ensures TransactionValid(cfg, env, tx, view, map[], {}, 1, false, 0)
    ensures Value(view, tx.inputs) > Amount(tx.outputs) + tx.fee
  {
    view := map[o := Coin("", 2)];
    var draft := Transaction(TransferKind, [o], [Coin("", 1)], 0, 0, cfg.chainId, Claim("", "", ""), "", 0);
    tx := draft.(txId := cfg.transactionHash(draft));
    assert tx.(txId := 0) == draft;
    assert [Coin("", 1)][..0] == [] && [o][..0] == [];
  }
}
