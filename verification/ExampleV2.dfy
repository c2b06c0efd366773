/** A network whose genesis and first block are valid, and one whose allocation IDs collide. */
module ExampleV2 {
  import opened Results
  import Numerals
  import opened Coins
  import opened ProtocolV2
  import opened ConsensusV2
  import opened SupplyV2
  import opened NodeV2

  /** Hashes of a block or allocation are read off its height or index; `collide` gives all allocations one ID. */
  function ExampleHash(collide: bool): Hashed -> Hash
  {
    (h: Hashed) =>
      match h
      case OfAllocation(_, index, _, _) => if collide then 1 else index + 1
      case OfTransfer(_) => 10
      case OfBlock(preimage) => preimage.height + 20
      case OfState(_) => 5
  }

  function ExampleNet(collide: bool): Network
  {
    Network("n", 20, 0, 1, 1, 100, 0, [Allocation("a", 60), Allocation("b", 40)],
            Limits(0, 1, 0, 2, 1, 1), {"s"},
            (scheme: string, key: string, signature: string, view: SignedView) => Some("a"),
            (scheme: string, key: string, signature: string) => true, (address: string) => true,
            ExampleHash(collide), (tx: Transfer) => 0, (b: Block) => 0, (p: BlockPreimage) => 0)
  }

  const GENESIS := Block(2, "n", 0, ZERO_HASH, 0, 0, 0, GENESIS_MINER, [], 5, 20)

  /** The holder of 60 pays 59 to `c` and burns 1. */
  const PAYMENT :=
    Transfer(2, "n", "transfer", 0, 1, [Input(Outpoint(1, 0), "key", "signature")], [Coin("c", 59)], map[], "s", 10)

  const CHILD := Block(2, "n", 1, 20, 1, 1, 0, "m", [PAYMENT], 5, 21)

  lemma SmallDigest(h: Hash)
    requires 0 <= h < 256
    ensures IsDigest(h) && h < Numerals.Power2(255)
  {
    assert Numerals.Power2(8) == 256;
    Numerals.PowerSum(8, 248);
    Numerals.PowerSum(8, 247);
    assert Numerals.Power2(248) >= 1 && Numerals.Power2(247) >= 1;
  }

  function Live(collide: bool): Utxos
  {
    if collide then map[Outpoint(1, 0) := Coin("b", 40)]
    else map[Outpoint(1, 0) := Coin("a", 60), Outpoint(2, 0) := Coin("b", 40)]
  }

  lemma GenesisReplayed(collide: bool)
    ensures GenesisState(ExampleNet(collide), 2) == Live(collide) && Total(Live(collide)) == if collide then 40 else 100
  {
    var net := ExampleNet(collide);
    assert GenesisState(net, 0) == map[];
    assert GenesisState(net, 1) == map[Outpoint(1, 0) := Coin("a", 60)];
    TotalUpdate(map[], Outpoint(1, 0), Coin("a", 60));
    TotalUpdate(map[Outpoint(1, 0) := Coin("a", 60)], Outpoint(if collide then 1 else 2, 0), Coin("b", 40));
  }

  lemma AllocationsPass(collide: bool)
    ensures AllocationsValid(ExampleNet(collide))
  {
    var s := ExampleNet(collide).allocations;
    var first := [Allocation("a", 60)];
    assert first[..0] == [] && AllocationSum([]) == 0;
    assert AllocationSum(first) == 60;
    assert s[..1] == first && s[..2] == s && s[..|s| - 1] == first;
    assert AllocationSum(s) == 100;
    assert AllocationValid(ExampleNet(collide), 0) && AllocationValid(ExampleNet(collide), 1);
  }

  lemma LiveIsValid(collide: bool)
    ensures StateValid(ExampleNet(collide), Live(collide))
  {
    hide Numerals.Power2;
    SmallDigest(1);
    SmallDigest(2);
  }

  /** The manifest rules can be met. */
  lemma GenesisIsValid(collide: bool)
    ensures GenesisValid(ExampleNet(collide), GENESIS)
  {
    hide AllocationsValid, StateValid;
    GenesisReplayed(collide);
    AllocationsPass(collide);
    LiveIsValid(collide);
  }

  lemma PaymentIsValid()
    ensures TransferValid(ExampleNet(false), PAYMENT)
  {
    hide Numerals.Power2;
    SmallDigest(1);
    SmallDigest(10);
  }

  function After(): Utxos { map[Outpoint(2, 0) := Coin("b", 40), Outpoint(10, 0) := Coin("c", 59)] }

  lemma PaymentApplies()
    ensures TransferApplies(PAYMENT, ["a"], Live(false)) && Applied(Live(false), PAYMENT) == After()
  {
    assert Sources(PAYMENT) == [Outpoint(1, 0)];
    assert [Outpoint(1, 0)][..0] == [] && PAYMENT.outputs[..0] == [];
    assert Amount(PAYMENT.outputs) == 59 && Value(Live(false), [Outpoint(1, 0)]) == 60;
    assert Without(Live(false), [Outpoint(1, 0)]) == map[Outpoint(2, 0) := Coin("b", 40)];
  }

  lemma PaymentFits()
    ensures RunTransfers(ExampleNet(false), {}, Live(false), [PAYMENT]) == Some(Ledger(After(), [10]))
  {
    hide TransferValid, TransferApplies, Applied, Live, After;
    PaymentIsValid();
    OwnerIsPaid();
    PaymentApplies();
    RunSnoc(ExampleNet(false), {}, Live(false), [], PAYMENT);
    assert [] + [PAYMENT] == [PAYMENT];
    assert Extended(Ledger(Live(false), []), PAYMENT) == Ledger(After(), [10]);
  }

  lemma OwnerIsPaid()
    ensures TransferValid(ExampleNet(false), PAYMENT) && Owners(ExampleNet(false), PAYMENT) == ["a"]
  {
    PaymentIsValid();
  }

  lemma ChildStateValid()
    ensures StateValid(ExampleNet(false), After()) && Total(After()) == 99
  {
    hide Numerals.Power2;
    SmallDigest(2);
    SmallDigest(10);
    TotalUpdate(map[], Outpoint(2, 0), Coin("b", 40));
    TotalUpdate(map[Outpoint(2, 0) := Coin("b", 40)], Outpoint(10, 0), Coin("c", 59));
  }

  lemma ChildContextValid()
    ensures ContextValid(ExampleNet(false), GENESIS, CHILD)
  {
    hide Numerals.Power2;
    SmallDigest(5);
    SmallDigest(10);
    SmallDigest(20);
    SmallDigest(21);
  }

  /** So can the rules of a block with a transfer. */
  lemma ChildIsAdmissible()
    ensures Admissible(ExampleNet(false), GenesisEntry(ExampleNet(false), GENESIS), CHILD)
  {
    hide ContextValid, StateValid, RunTransfers, After;
    GenesisReplayed(false);
    PaymentFits();
    ChildStateValid();
    ChildContextValid();
  }

  const GRANDCHILD := Block(2, "n", 2, 21, 2, 1, 0, "m", [], 5, 22)

  lemma GrandchildContextValid()
    ensures ContextValid(ExampleNet(false), CHILD, GRANDCHILD)
  {
    hide Numerals.Power2;
    SmallDigest(5);
    SmallDigest(21);
    SmallDigest(22);
  }

  /** A node that accepts both blocks, but fails to write the first, cannot be reopened. */
  lemma FailedWriteBreaksRestart()
    ensures var net := ExampleNet(false);
            var child := GenesisEntry(net, GENESIS);
            && Admissible(net, child, CHILD) && Admissible(net, ChildEntry(net, child, CHILD), GRANDCHILD)
            && !ParentsStored(map[20 := GENESIS, 22 := GRANDCHILD], net.genesisHash)
  {
    hide ContextValid, StateValid, RunTransfers, After;
    ChildIsAdmissible();
    GenesisReplayed(false);
    PaymentFits();
    ChildStateValid();
    GrandchildContextValid();
    var net := ExampleNet(false);
    var e := ChildEntry(net, GenesisEntry(net, GENESIS), CHILD);
    assert e.block == CHILD && e.utxos == After();
    NoTransfers(net, e.txIds, e.utxos);
    assert StateAccepted(net, e.utxos, 5);
    assert Admissible(net, e, GRANDCHILD);
    var rows: map<Hash, Block> := map[20 := GENESIS, 22 := GRANDCHILD];
    assert rows[22].previousHash !in rows;
  }

  lemma NoTransfers(net: Network, known: set<Hash>, utxos: Utxos)
    ensures RunTransfers(net, known, utxos, []) == Some(Ledger(utxos, []))
  {
  }

  /** When the preimages of two allocations collide, a valid genesis issues less than the maximum supply. */
  lemma CollidingAllocationsLoseSupply()
    ensures var net := ExampleNet(true);
            && GenesisValid(net, GENESIS) && AllocationsCollide(net)
            && Total(GenesisUtxos(net)) == 40 && net.maxSupply == 100
  {
    GenesisIsValid(true);
    GenesisReplayed(true);
    assert Collide(ExampleNet(true), AllocationPreimage(ExampleNet(true), 0), AllocationPreimage(ExampleNet(true), 1));
  }
}
