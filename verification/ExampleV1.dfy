/** An accepted branch: a genesis that allocates 100 and one block that pays its miner a subsidy of 50. */
module ExampleV1 {
  import opened Results
  import opened Coins
  import Currency
  import opened ChainV1
  import opened NodeV1

  const NO_CLAIM := Claim("", "", "")

  /** Hashes are read off heights and timestamps, which is enough for two blocks. */
  function ExampleConfig(): Config
  {
    Config("example", 1, Currency.Policy(50, 0, 0), 0, 0, 0, 1, 1000, 0, 0, 1000,
           (tx: Transaction) => tx.timestamp, (b: Block) => b.index + 1, (m: Utxos) => 0)
  }

  function ExampleEnv(): Env
  {
    Env(10, (tx: Transaction, m: Utxos) => true, (tx: Transaction, height: int) => true, (address: string) => false)
  }

  const ALLOCATION := Transaction(TransferKind, [], [Coin("founder", 100)], 0, 0, "example", NO_CLAIM, "", 0)
  const REWARD := Transaction(TransferKind, [], [Coin("miner", 50)], 0, 1, "example", NO_CLAIM, "", 1)
  const FIRST := Block(0, ZERO_HASH, [ALLOCATION], GENESIS_MINER, 1, "example", 2, 0, 0, None, 1)
  const SECOND := Block(1, 1, [REWARD], "miner", 1, "example", 2, 1, 0, None, 2)

  function LiveAfter(blocks: nat): Utxos
  {
    if blocks == 0 then map[]
    else if blocks == 1 then map[Outpoint(0, 0) := Coin("founder", 100)]
    else map[Outpoint(0, 0) := Coin("founder", 100), Outpoint(1, 0) := Coin("miner", 50)]
  }

  lemma OneOutput(m: Utxos, tx: Transaction, c: Coin)
    requires tx.inputs == [] && tx.outputs == [c]
    ensures ApplyTransactions(m, [tx]) == m[Outpoint(tx.txId, 0) := c] && Amount(tx.outputs) == c.amount
    ensures OutputsIn([tx]) == c.amount
  {
    assert [tx][..0] == [] && [c][..0] == [];
    assert Without(m, []) == m && ApplyTransactions(m, []) == m;
    assert WithOutputs(m, tx.txId, [c]) == m[Outpoint(tx.txId, 0) := c];
    assert ApplyTransaction(m, tx) == m[Outpoint(tx.txId, 0) := c];
  }

  lemma Replayed()
    ensures UtxosOf([FIRST]) == LiveAfter(1) && UtxosOf([FIRST, SECOND]) == LiveAfter(2)
    ensures Total(LiveAfter(1)) == 100 && Total(LiveAfter(2)) == 150
  {
    OneOutput(map[], ALLOCATION, Coin("founder", 100));
    OneOutput(LiveAfter(1), REWARD, Coin("miner", 50));
    assert [FIRST][..0] == [] && [FIRST, SECOND][..1] == [FIRST];
    assert UtxosOf([]) == map[];
    TotalUpdate(map[], Outpoint(0, 0), Coin("founder", 100));
    TotalUpdate(LiveAfter(1), Outpoint(1, 0), Coin("miner", 50));
  }

  lemma Supplies()
    ensures SupplyOf(ExampleConfig(), [FIRST]) == Supply(100, 0, 0)
    ensures SupplyOf(ExampleConfig(), [FIRST, SECOND]) == Supply(100, 50, 0)
    ensures Currency.SubsidyAt(ExampleConfig().policy, 1) == 50
  {
    OneOutput(map[], ALLOCATION, Coin("founder", 100));
    assert [FIRST][..0] == [] && [FIRST, SECOND][..1] == [FIRST] && [REWARD][1..] == [];
    assert SupplyOf(ExampleConfig(), []) == Supply(0, 0, 0);
  }

  lemma WorkFits(h: Hash)
    requires 0 <= h <= 2
    ensures ProofOfWork(h, 1)
  {
    assert Pow16(63) == 16 * Pow16(62);
  }

  lemma FirstIsValid()
    ensures GenesisValid(ExampleConfig(), ExampleEnv(), FIRST)
  {
    hide ProofOfWork, Total, UtxosOf, SupplyOf;
    WorkFits(1);
    Replayed();
    Supplies();
  }

  lemma SecondIsValid()
    ensures BlockValid(ExampleConfig(), ExampleEnv(), [FIRST], SECOND)
  {
    hide ProofOfWork, Total, UtxosOf, SupplyOf, OriginsOf, ClaimsOf, EpochMinted, Currency.SubsidyAt;
    var cfg, env := ExampleConfig(), ExampleEnv();
    WorkFits(2);
    Replayed();
    Supplies();
    OneOutput(LiveAfter(1), REWARD, Coin("miner", 50));
    assert ScanBlock(cfg, env, [FIRST], SECOND, 0) == Some(StartScan(cfg, [FIRST], SECOND));
    var s := ScanBlock(cfg, env, [FIRST], SECOND, 1);
    assert ApplyTransactions(LiveAfter(1), []) == LiveAfter(1);
    assert [REWARD][..0] == [];
    assert s.Some? && s.value.view == LiveAfter(2) && s.value.fees == 0;
    assert [FIRST] + [SECOND] == [FIRST, SECOND];
  }

  /** The rules admit branches past the genesis. */
  lemma AcceptedBranchExists()
    ensures BranchValid(ExampleConfig(), [FIRST, SECOND])
  {
    hide GenesisValid, BlockValid;
    FirstIsValid();
    SecondIsValid();
    assert GenesisAdmitted(ExampleConfig(), FIRST) && Admitted(ExampleConfig(), [FIRST], SECOND);
    assert [FIRST, SECOND][..1] == [FIRST];
  }

  /** A process that stops after storing the second block leaves the first one the head, although it is beaten. */
  lemma StopLeavesHeadBehind()
    ensures var before: Blocks := map[1 := FIRST];
            var after := before[2 := SECOND];
            && AllValid(ExampleConfig(), after)
            && Importable(ExampleConfig(), ExampleEnv(), before, false, SECOND)
            && IsBestAmong(after, {1}, 1) && !IsBest(after, 1)
  {
    hide GenesisValid, BlockValid, BranchValid, WorkOf;
    var after: Blocks := map[1 := FIRST, 2 := SECOND];
    SecondIsValid();
    AcceptedBranchExists();
    FirstBranch();
    StoredPaths();
    SecondWeighsMore();
  }

  lemma StoredPaths()
    ensures var before, after: Blocks := map[1 := FIRST], map[1 := FIRST, 2 := SECOND];
            && Linked(before) && PathTo(before, 1) == [FIRST]
            && Linked(after) && PathTo(after, 1) == [FIRST] && PathTo(after, 2) == [FIRST, SECOND]
  {
    var after: Blocks := map[1 := FIRST, 2 := SECOND];
    assert after[2] == SECOND && PathTo(after, 2) == PathTo(after, 1) + [SECOND];
  }

  lemma SecondWeighsMore()
    ensures WorkOf([FIRST]) < WorkOf([FIRST, SECOND])
  {
    hide BlockWork;
    WorkIsPositive();
    assert [FIRST, SECOND][..1] == [FIRST];
  }

  lemma WorkIsPositive()
    ensures BlockWork(1) >= 1
  {
  }

  lemma FirstBranch()
    ensures BranchValid(ExampleConfig(), [FIRST])
  {
    hide GenesisValid;
    FirstIsValid();
    assert GenesisAdmitted(ExampleConfig(), FIRST);
  }
}
