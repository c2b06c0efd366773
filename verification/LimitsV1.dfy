/** Issuance limits on the version 0.1 branches that nodes accept. */
module LimitsV1 {
  import opened Collections
  import opened Coins
  import opened ChainV1
  import opened BranchesV1
  import Currency

  lemma {:induction false} BranchHeights(cfg: Config, path: seq<Block>, i: nat)
    requires BranchValid(cfg, path) && i < |path|
    ensures path[i].index == i
  {
    hide GenesisValid, BlockValid;
    var front, b := path[..|path| - 1], path[|path| - 1];
    if |path| == 1 {
      var env :| GenesisValid(cfg, env, b);
      GenesisIndex(cfg, env, b);
    } else if i < |front| {
      BranchHeights(cfg, front, i);
    } else {
      BranchHeights(cfg, front, |front| - 1);
      var env :| BlockValid(cfg, env, front, b);
      BlockIndex(cfg, env, front, b);
    }
  }

  lemma GenesisIndex(cfg: Config, env: Env, b: Block)
    requires GenesisValid(cfg, env, b)
    ensures b.index == 0 && |b.transactions| == 1 && b.transactions[0].kind == TransferKind
    ensures b.transactions[0].inputs == [] && b.previousHash == ZERO_HASH
  {
    hide TransactionValid, Reconciled, HeaderValid, RootMatches;
  }

  lemma BlockIndex(cfg: Config, env: Env, path: seq<Block>, b: Block)
    requires BlockValid(cfg, env, path, b)
    ensures path != [] && b.index == path[|path| - 1].index + 1 && b.previousHash == path[|path| - 1].blockHash
    ensures b.transactions != [] && RewardForm(b)
    ensures ScanBlock(cfg, env, path, b, |b.transactions|).Some?
    ensures WithinLimits(cfg, SupplyOf(cfg, path + [b]))
  {
    hide ScanBlock, UtxosOf, Total, SupplyOf, WithinLimits;
  }

  // ---------------------------------------------------------------- one mint per classical address

  /** What the step of a scan says about claims. */
  lemma ClaimStep(cfg: Config, env: Env, path: seq<Block>, b: Block, k: nat)
    requires b.transactions != [] && RewardForm(b)
    requires k < |b.transactions| && ScanBlock(cfg, env, path, b, k + 1).Some?
    ensures ScanBlock(cfg, env, path, b, k).Some?
    ensures var s, next := ScanBlock(cfg, env, path, b, k).value, ScanBlock(cfg, env, path, b, k + 1).value;
            var tx := b.transactions[k];
            if tx.kind == ClaimKind
            then next.claimed == s.claimed + {tx.claim.classicalAddress}
                 && tx.claim.classicalAddress !in Elements(ClaimsOf(path)) + s.claimed
            else next.claimed == s.claimed
  {
    hide ApplyTransaction, OriginStep, ClaimsOf, SpendValid, Amount;
  }

  lemma {:induction false} ScanClaims(cfg: Config, env: Env, path: seq<Block>, b: Block, k: nat)
    requires b.transactions != [] && RewardForm(b) && Distinct(ClaimsOf(path))
    requires k <= |b.transactions| && ScanBlock(cfg, env, path, b, k).Some?
    ensures var claims := ClaimsIn(b.transactions[..k]);
            && ScanBlock(cfg, env, path, b, k).value.claimed == Elements(claims)
            && Distinct(ClaimsOf(path) + claims)
  {
    hide ScanStep, ApplyTransaction, OriginStep, ClaimsOf;
    if k > 0 {
      ClaimStep(cfg, env, path, b, k - 1);
      ScanClaims(cfg, env, path, b, k - 1);
      var tx, before := b.transactions[k - 1], ClaimsIn(b.transactions[..k - 1]);
      assert b.transactions[..k][..k - 1] == b.transactions[..k - 1];
      if tx.kind == ClaimKind {
        DistinctExtends(ClaimsOf(path) + before, tx.claim.classicalAddress);
        assert ClaimsOf(path) + (before + [tx.claim.classicalAddress])
          == ClaimsOf(path) + before + [tx.claim.classicalAddress];
        assert Elements(before + [tx.claim.classicalAddress]) == Elements(before) + {tx.claim.classicalAddress};
      } else {
        assert before + [] == before;
      }
    } else {
      assert ClaimsOf(path) + [] == ClaimsOf(path);
    }
  }

  /** On every accepted branch each classical address is minted for at most once. */
  lemma {:induction false} ClaimedAtMostOnce(cfg: Config, path: seq<Block>)
    requires BranchValid(cfg, path)
    ensures Distinct(ClaimsOf(path))
  {
    hide GenesisValid, BlockValid, ScanBlock;
    var front, b := path[..|path| - 1], path[|path| - 1];
    if |path| == 1 {
      var env :| GenesisValid(cfg, env, b);
      GenesisIndex(cfg, env, b);
      assert b.transactions == [b.transactions[0]] && front == [];
      assert ClaimsIn([b.transactions[0]][..0]) == [];
    } else {
      ClaimedAtMostOnce(cfg, front);
      var env :| BlockValid(cfg, env, front, b);
      BlockIndex(cfg, env, front, b);
      ScanClaims(cfg, env, front, b, |b.transactions|);
      assert b.transactions[..|b.transactions|] == b.transactions;
    }
  }

  // ---------------------------------------------------------------- epoch cap

  lemma EpochCovers(cfg: Config, height: nat, epoch: nat)
    ensures epoch * EpochLength(cfg) <= height <= epoch * EpochLength(cfg) + EpochLength(cfg) - 1
            <==> epoch == EpochOf(cfg, height)
  {
    var l, q := EpochLength(cfg), EpochOf(cfg, height);
    assert q * l <= height < q * l + l;
    if epoch < q {
      assert (epoch + 1) * l <= q * l;
    } else if epoch > q {
      assert (q + 1) * l <= epoch * l;
    }
  }

  lemma EpochStep(cfg: Config, env: Env, path: seq<Block>, b: Block, k: nat)
    requires b.transactions != [] && RewardForm(b) && cfg.epochMintCap > 0
    requires k < |b.transactions| && ScanBlock(cfg, env, path, b, k + 1).Some?
    ensures ScanBlock(cfg, env, path, b, k).Some?
    ensures var s, next := ScanBlock(cfg, env, path, b, k).value, ScanBlock(cfg, env, path, b, k + 1).value;
            var tx := b.transactions[k];
            if tx.kind == ClaimKind
            then next.epochMinted == s.epochMinted + Amount(tx.outputs) <= cfg.epochMintCap
            else next.epochMinted == s.epochMinted
  {
    hide ApplyTransaction, OriginStep, ClaimsOf, TransactionValid, Amount;
  }

  lemma {:induction false} ScanEpoch(cfg: Config, env: Env, path: seq<Block>, b: Block, k: nat)
    requires b.transactions != [] && RewardForm(b) && cfg.epochMintCap > 0
    requires EpochMinted(cfg, path, EpochOf(cfg, b.index)) <= cfg.epochMintCap
    requires k <= |b.transactions| && ScanBlock(cfg, env, path, b, k).Some?
    ensures ScanBlock(cfg, env, path, b, k).value.epochMinted
            == EpochMinted(cfg, path, EpochOf(cfg, b.index)) + MintedIn(b.transactions[..k]) <= cfg.epochMintCap
  {
    hide ScanStep, ApplyTransaction, OriginStep, ClaimsOf, EpochOf, EpochMinted, UtxosOf, OriginsOf;
    if k > 0 {
      EpochStep(cfg, env, path, b, k - 1);
      ScanEpoch(cfg, env, path, b, k - 1);
      assert b.transactions[..k][..k - 1] == b.transactions[..k - 1];
    }
  }

  /** On every accepted branch the migration value minted in each epoch stays within a positive epoch cap. */
  lemma {:induction false} EpochsWithinCap(cfg: Config, path: seq<Block>, epoch: nat)
    requires BranchValid(cfg, path) && cfg.epochMintCap > 0
    ensures EpochMinted(cfg, path, epoch) <= cfg.epochMintCap
  {
    hide GenesisValid, BlockValid, ScanBlock, EpochLength, EpochOf;
    var front, b := path[..|path| - 1], path[|path| - 1];
    if |path| == 1 {
      var env :| GenesisValid(cfg, env, b);
      GenesisIndex(cfg, env, b);
      assert b.transactions == [b.transactions[0]] && front == [];
      assert MintedIn([b.transactions[0]][..0]) == 0;
    } else {
      EpochsWithinCap(cfg, front, epoch);
      BranchHeights(cfg, path, |path| - 1);
      EpochCovers(cfg, b.index, epoch);
      if epoch == EpochOf(cfg, b.index) {
        var env :| BlockValid(cfg, env, front, b);
        BlockIndex(cfg, env, front, b);
        ScanEpoch(cfg, env, front, b, |b.transactions|);
        assert b.transactions[..|b.transactions|] == b.transactions;
      }
    }
  }

  // ---------------------------------------------------------------- supply caps

  /** Past the genesis, genesis, emission, migration and total supply stay within their caps, and the live total is
      exactly what was issued. */
  lemma SupplyWithinCaps(cfg: Config, path: seq<Block>, n: nat)
    requires BranchValid(cfg, path) && 1 < n <= |path|
    ensures WithinLimits(cfg, SupplyOf(cfg, path[..n]))
    ensures Total(UtxosOf(path[..n])) == Issued(SupplyOf(cfg, path[..n])) <= cfg.maxMoney
  {
    hide GenesisValid, BlockValid, ScanBlock, UtxosOf, Total, SupplyOf;
    PrefixValid(cfg, path, n);
    var upTo := path[..n];
    BranchReconciled(cfg, upTo);
    var env :| BlockValid(cfg, env, upTo[..n - 1], upTo[n - 1]);
    BlockIndex(cfg, env, upTo[..n - 1], upTo[n - 1]);
    assert upTo[..n - 1] + [upTo[n - 1]] == upTo;
  }

  /** The subsidy issued on a branch is the policy's cumulative subsidy of its height, which never exceeds a positive
      emission cap: the emission check of block validation cannot fire. */
  lemma {:induction false} SubsidyIsCumulative(cfg: Config, path: seq<Block>)
    requires BranchValid(cfg, path)
    ensures SupplyOf(cfg, path).subsidy == Currency.CumulativeSubsidy(cfg.policy, |path| - 1)
    ensures cfg.policy.emissionCap > 0 ==> SupplyOf(cfg, path).subsidy <= cfg.policy.emissionCap
  {
    SubsidyIsSum(cfg, path);
    Currency.SubsidiesSumToCumulative(cfg.policy, |path| - 1);
  }

  lemma {:induction false} SubsidyIsSum(cfg: Config, path: seq<Block>)
    requires BranchValid(cfg, path)
    ensures SupplyOf(cfg, path).subsidy == Currency.SumSubsidies(cfg.policy, |path| - 1)
  {
    hide GenesisValid, BlockValid, Currency.SubsidyAt;
    var front, b := path[..|path| - 1], path[|path| - 1];
    BranchHeights(cfg, path, |path| - 1);
    if |path| == 1 {
      assert front == [];
      assert SupplyOf(cfg, front).subsidy == 0;
    } else {
      SubsidyIsSum(cfg, front);
      var env :| BlockValid(cfg, env, front, b);
      BlockIndex(cfg, env, front, b);
    }
  }
}
