/** What holds of every block and transfer on a stored version 2 branch, read off the blocks alone. */
module AcceptedV2 {
  import opened Results
  import opened Collections
  import Numerals
  import opened Coins
  import opened ProtocolV2
  import opened BlockTree
  import opened ConsensusV2
  import opened SupplyV2

  /** The live outputs after a list of transfers, each removing what it names and adding what it lists. */
  function Replayed(utxos: Utxos, txs: seq<Transfer>): Utxos
  {
    if txs == [] then utxos
    else
      var before, tx := Replayed(utxos, txs[..|txs| - 1]), txs[|txs| - 1];
      WithOutputs(Without(before, Sources(tx)), tx.txId, tx.outputs)
  }

  lemma {:induction false} RunIsReplay(net: Network, known: set<Hash>, utxos: Utxos, txs: seq<Transfer>)
    requires RunTransfers(net, known, utxos, txs).Some?
    ensures RunTransfers(net, known, utxos, txs).value.utxos == Replayed(utxos, txs)
    ensures RunTransfers(net, known, utxos, txs).value.ids == TxIds(txs)
  {
    hide Fits;
    if txs != [] { RunIsReplay(net, known, utxos, txs[..|txs| - 1]); }
  }

  /** A transfer that fits is signed, input by input, by the recipient of the live coin that the input names. */
  lemma FitsIsSigned(net: Network, known: set<Hash>, l: Ledger, tx: Transfer, i: nat)
    requires Fits(net, known, l, tx) && i < |tx.inputs|
    ensures tx.inputs[i].source in l.utxos
    ensures net.provider(tx.scheme, tx.inputs[i].publicKey, tx.inputs[i].signature, SignaturePreimage(tx))
            == Some(l.utxos[tx.inputs[i].source].recipient)
  {
    assert Sources(tx)[i] == tx.inputs[i].source;
    assert InputValid(net, tx, i);
    assert Owners(net, tx)[i] == OwnerOf(net, tx, i).value;
  }

  lemma {:induction false} RunIsSigned(net: Network, known: set<Hash>, utxos: Utxos, txs: seq<Transfer>, k: nat, i: nat)
    requires RunTransfers(net, known, utxos, txs).Some? && k < |txs| && i < |txs[k].inputs|
    ensures var tx, live := txs[k], Replayed(utxos, txs[..k]);
            && tx.inputs[i].source in live
            && net.provider(tx.scheme, tx.inputs[i].publicKey, tx.inputs[i].signature, SignaturePreimage(tx))
               == Some(live[tx.inputs[i].source].recipient)
  {
    hide Fits;
    var n := |txs| - 1;
    if k < n {
      RunIsSigned(net, known, utxos, txs[..n], k, i);
      assert txs[..n][..k] == txs[..k];
    } else {
      RunIsReplay(net, known, utxos, txs[..n]);
      FitsIsSigned(net, known, RunTransfers(net, known, utxos, txs[..n]).value, txs[n], i);
    }
  }

  lemma GenesisBits(net: Network, g: Block)
    requires GenesisValid(net, g)
    ensures net.difficultyBits >= 0
  {
  }

  /** On every stored branch each input of each transfer names an output that is live at that moment, and its
      signature over the transfer is its recipient's: nobody spends another owner's coin. */
  lemma SpendsAreAuthorised(net: Network, g: Block, t: Tree<Entry>, h: Hash, k: nat, i: nat)
    requires GenesisValid(net, g) && Lawful(EngineRule(net, g))
    requires Grown(EngineRule(net, g), t) && h in t.entries
    requires var txs := Flat(Branch(EngineRule(net, g), t, h)); k < |txs| && i < |txs[k].inputs|
    ensures var txs := Flat(Branch(EngineRule(net, g), t, h));
            var tx, live := txs[k], Replayed(GenesisUtxos(net), txs[..k]);
            && tx.inputs[i].source in live
            && net.provider(tx.scheme, tx.inputs[i].publicKey, tx.inputs[i].signature, SignaturePreimage(tx))
               == Some(live[tx.inputs[i].source].recipient)
  {
    hide RunTransfers, EngineRule, GenesisValid, Replayed, Lawful, Grown, Flat;
    GenesisBits(net, g);
    StoredEntryIsOneRun(net, g, t, h);
    RunIsSigned(net, {}, GenesisUtxos(net), Flat(Branch(EngineRule(net, g), t, h)), k, i);
  }

  /** The stored state of a block is the replay of its branch. */
  lemma StateIsReplay(net: Network, g: Block, t: Tree<Entry>, h: Hash)
    requires GenesisValid(net, g) && Lawful(EngineRule(net, g))
    requires Grown(EngineRule(net, g), t) && h in t.entries
    ensures t.entries[h].utxos == Replayed(GenesisUtxos(net), Flat(Branch(EngineRule(net, g), t, h)))
  {
    hide RunTransfers, EngineRule, GenesisValid, Replayed, Lawful, Grown, Flat;
    GenesisBits(net, g);
    StoredEntryIsOneRun(net, g, t, h);
    RunIsReplay(net, {}, GenesisUtxos(net), Flat(Branch(EngineRule(net, g), t, h)));
  }

  /** What every input signature covers: all of a transfer but the keys, the signatures and the ID. */
  lemma SignatureCovers(x: Transfer, y: Transfer)
    ensures SignaturePreimage(x) == SignaturePreimage(y)
            <==> && x.version == y.version && x.chainId == y.chainId && x.kind == y.kind
                 && x.timestamp == y.timestamp && x.fee == y.fee && x.outputs == y.outputs
                 && x.metadata == y.metadata && x.scheme == y.scheme && |x.inputs| == |y.inputs|
                 && forall i | 0 <= i < |x.inputs| :: x.inputs[i].source == y.inputs[i].source
  {
    if SignaturePreimage(x) == SignaturePreimage(y) {
      forall i | 0 <= i < |x.inputs| ensures x.inputs[i].source == y.inputs[i].source {
        assert Sources(x)[i] == Sources(y)[i];
      }
    }
    if |x.inputs| == |y.inputs| && forall i | 0 <= i < |x.inputs| :: x.inputs[i].source == y.inputs[i].source {
      assert Sources(x) == Sources(y);
    }
  }

  // ---------------------------------------------------------------- transfers

  /** A transfer of this network with an ID that commits to it, distinct inputs, and sound outputs. */
  lemma ValidTransferMeans(net: Network, tx: Transfer)
    requires TransferValid(net, tx)
    ensures tx.version == 2 && tx.chainId == net.chainId && tx.kind == "transfer" && tx.scheme in net.schemes
    ensures tx.txId == net.hash(OfTransfer(tx.(txId := 0))) && tx.fee >= 0 && tx.timestamp >= 0 && tx.metadata == map[]
    ensures 1 <= |tx.inputs| <= net.limits.inputs && 1 <= |tx.outputs| <= net.limits.outputs
    ensures net.transferSize(tx) <= net.limits.transferBytes
    ensures forall i | 0 <= i < |tx.inputs| ::
              net.payloadFits(tx.scheme, tx.inputs[i].publicKey, tx.inputs[i].signature)
    ensures forall c | c in tx.outputs :: 1 <= c.amount <= MAX_I64 && net.addressRule(c.recipient)
    ensures forall i, j | 0 <= i < j < |tx.inputs| :: tx.inputs[i].source != tx.inputs[j].source
  {
    forall i | 0 <= i < |tx.inputs|
      ensures net.payloadFits(tx.scheme, tx.inputs[i].publicKey, tx.inputs[i].signature)
    {
      assert InputValid(net, tx, i);
    }
    forall i, j | 0 <= i < j < |tx.inputs| ensures tx.inputs[i].source != tx.inputs[j].source {
      assert Sources(tx)[i] != Sources(tx)[j];
    }
    forall c | c in tx.outputs ensures 1 <= c.amount <= MAX_I64 && net.addressRule(c.recipient) {
      assert OutputValid(net, c);
    }
  }

  lemma {:induction false} RunIdsDiffer(net: Network, known: set<Hash>, utxos: Utxos, txs: seq<Transfer>, j: nat,
                                        k: nat)
    requires RunTransfers(net, known, utxos, txs).Some? && j < k < |txs|
    ensures txs[j].txId != txs[k].txId
  {
    hide TransferValid, TransferApplies;
    var n := |txs| - 1;
    RunIsReplay(net, known, utxos, txs[..n]);
    if k < n {
      RunIdsDiffer(net, known, utxos, txs[..n], j, k);
    } else {
      assert TxIds(txs[..n])[j] == txs[j].txId;
    }
  }

  /** Every transfer of a stored branch belongs to the network and commits to its content, and no two share an ID. */
  lemma TransfersAreSound(net: Network, g: Block, t: Tree<Entry>, h: Hash, k: nat)
    requires GenesisValid(net, g) && Lawful(EngineRule(net, g))
    requires Grown(EngineRule(net, g), t) && h in t.entries
    requires k < |Flat(Branch(EngineRule(net, g), t, h))|
    ensures var txs := Flat(Branch(EngineRule(net, g), t, h));
            var tx := txs[k];
            && tx.version == 2 && tx.chainId == net.chainId && tx.kind == "transfer" && tx.scheme in net.schemes
            && tx.txId == net.hash(OfTransfer(tx.(txId := 0))) && tx.fee >= 0
            && 1 <= |tx.inputs| <= net.limits.inputs && 1 <= |tx.outputs| <= net.limits.outputs
            && net.transferSize(tx) <= net.limits.transferBytes
            && (forall c | c in tx.outputs :: 1 <= c.amount <= MAX_I64 && net.addressRule(c.recipient))
            && (forall i, j | 0 <= i < j < |tx.inputs| :: tx.inputs[i].source != tx.inputs[j].source)
            && forall j | 0 <= j < k :: txs[j].txId != tx.txId
  {
    hide RunTransfers, EngineRule, GenesisValid, TransferValid, Lawful, Grown, Flat;
    GenesisBits(net, g);
    var txs := Flat(Branch(EngineRule(net, g), t, h));
    StoredEntryIsOneRun(net, g, t, h);
    RanValid(net, {}, GenesisUtxos(net), txs);
    ValidTransferMeans(net, txs[k]);
    forall j | 0 <= j < k ensures txs[j].txId != txs[k].txId {
      RunIdsDiffer(net, {}, GenesisUtxos(net), txs, j, k);
    }
  }

  lemma {:induction false} ReplayedCoin(utxos: Utxos, txs: seq<Transfer>, k: nat, i: nat)
    requires forall a, b | 0 <= a < b < |txs| :: txs[a].txId != txs[b].txId
    requires k < |txs| && i < |txs[k].outputs| && Outpoint(txs[k].txId, i) in Replayed(utxos, txs)
    ensures Replayed(utxos, txs)[Outpoint(txs[k].txId, i)] == txs[k].outputs[i]
  {
    var front, tx := txs[..|txs| - 1], txs[|txs| - 1];
    WithOutputsContent(Without(Replayed(utxos, front), Sources(tx)), tx.txId, tx.outputs);
    if k < |txs| - 1 { ReplayedCoin(utxos, front, k, i); }
  }

  /** A live output under the ID of a transfer of its branch is the coin which that transfer lists at its index. */
  lemma LiveOutputIsItsCreation(net: Network, g: Block, t: Tree<Entry>, h: Hash, k: nat, i: nat)
    requires GenesisValid(net, g) && Lawful(EngineRule(net, g))
    requires Grown(EngineRule(net, g), t) && h in t.entries
    requires var txs := Flat(Branch(EngineRule(net, g), t, h));
             k < |txs| && i < |txs[k].outputs| && Outpoint(txs[k].txId, i) in t.entries[h].utxos
    ensures var tx := Flat(Branch(EngineRule(net, g), t, h))[k];
            t.entries[h].utxos[Outpoint(tx.txId, i)] == tx.outputs[i]
  {
    hide RunTransfers, EngineRule, GenesisValid, Replayed, Lawful, Grown, Flat;
    GenesisBits(net, g);
    var txs := Flat(Branch(EngineRule(net, g), t, h));
    StateIsReplay(net, g, t, h);
    StoredEntryIsOneRun(net, g, t, h);
    forall a, b | 0 <= a < b < |txs| ensures txs[a].txId != txs[b].txId {
      RunIdsDiffer(net, {}, GenesisUtxos(net), txs, a, b);
    }
    ReplayedCoin(GenesisUtxos(net), txs, k, i);
  }

  // ---------------------------------------------------------------- blocks

  lemma AdmissibleBlockMeans(net: Network, parent: Entry, b: Block)
    requires Admissible(net, parent, b)
    ensures b.previousHash == parent.block.blockHash && b.height == parent.block.height + 1
    ensures parent.block.timestamp < b.timestamp <= parent.block.timestamp + net.maxStep
    ensures b.version == 2 && b.chainId == net.chainId && b.difficulty == net.difficultyBits
    ensures b.blockHash == net.hash(OfBlock(Preimage(b))) && 0 <= b.blockHash
    ensures 1 <= net.difficultyBits <= 16 && b.blockHash < Numerals.Power2(256 - net.difficultyBits)
    ensures 1 <= net.maxStep <= 120_000_000
    ensures 0 <= b.nonce <= MAX_I64 && b.timestamp <= MAX_I64 && b.miner != "" && net.addressRule(b.miner)
    ensures net.blockSize(b) <= net.limits.blockBytes && |b.transactions| <= net.limits.blockTransactions
    ensures RunTransfers(net, parent.txIds, parent.utxos, b.transactions).Some?
    ensures var after := RunTransfers(net, parent.txIds, parent.utxos, b.transactions).value.utxos;
            && b.stateRoot == net.hash(OfState(after))
            && forall o | o in after :: 1 <= after[o].amount <= MAX_I64 && net.addressRule(after[o].recipient)
  {
    hide RunTransfers, Numerals.Power2, Total;
    var after := RunTransfers(net, parent.txIds, parent.utxos, b.transactions).value.utxos;
    forall o | o in after ensures 1 <= after[o].amount <= MAX_I64 && net.addressRule(after[o].recipient) {
      assert UtxoValid(net, o, after[o]);
    }
  }

  /** A hash below that bound starts with so many zero bits: multiplied by as much it stays below 2^256. */
  lemma WorkDone(hash: int, bits: nat)
    requires 0 <= hash && bits <= 256 && hash < Numerals.Power2(256 - bits)
    ensures hash * Numerals.Power2(bits) < Numerals.Power2(256)
  {
    Numerals.PowerSum(256 - bits, bits);
    Numerals.ProductGrows(hash, Numerals.Power2(256 - bits), Numerals.Power2(bits));
  }

  lemma StoredIsAdmissible(net: Network, g: Block, t: Tree<Entry>, h: Hash)
    requires GenesisValid(net, g) && Grown(EngineRule(net, g), t)
    requires h in t.entries && h != net.genesisHash
    ensures var b := t.entries[h].block;
            && b.blockHash == h && b.previousHash in t.entries
            && Admissible(net, t.entries[b.previousHash], b)
            && t.entries[h].utxos == RunTransfers(net, t.entries[b.previousHash].txIds,
                                                  t.entries[b.previousHash].utxos, b.transactions).value.utxos
  {
    hide Admissible, RunTransfers, AllocationsValid, StateValid, BestTip;
    assert Justified(EngineRule(net, g), t, h);
  }

  /** Every stored block above the genesis links to its stored parent one height below and later in time by at most the
      allowed step, carries the fixed proof of work under a hash that commits to it, stays within the manifest's limits,
      and commits to the state the node memoises for it, in which every output is sound. */
  lemma BlocksAreSound(net: Network, g: Block, t: Tree<Entry>, h: Hash)
    requires GenesisValid(net, g) && Grown(EngineRule(net, g), t)
    requires h in t.entries && h != net.genesisHash
    ensures var b := t.entries[h].block;
            && b.blockHash == h && b.previousHash in t.entries
            && b.height == t.entries[b.previousHash].block.height + 1
            && t.entries[b.previousHash].block.blockHash == b.previousHash
            && t.entries[b.previousHash].block.timestamp < b.timestamp
               <= t.entries[b.previousHash].block.timestamp + net.maxStep
    ensures var b := t.entries[h].block;
            && b.version == 2 && b.chainId == net.chainId && b.miner != "" && net.addressRule(b.miner)
            && 0 <= b.nonce <= MAX_I64 && b.timestamp <= MAX_I64
            && 1 <= b.difficulty == net.difficultyBits <= 16 && 1 <= net.maxStep <= 120_000_000
            && h == net.hash(OfBlock(Preimage(b))) && 0 <= h
            && h * Numerals.Power2(net.difficultyBits) < Numerals.Power2(256)
            && net.blockSize(b) <= net.limits.blockBytes && |b.transactions| <= net.limits.blockTransactions
    ensures var b, live := t.entries[h].block, t.entries[h].utxos;
            && b.stateRoot == net.hash(OfState(live))
            && forall o | o in live :: 1 <= live[o].amount <= MAX_I64 && net.addressRule(live[o].recipient)
  {
    hide Admissible, RunTransfers, EngineRule, GenesisValid, Grown, Numerals.Power2;
    GenesisBits(net, g);
    StoredIsAdmissible(net, g, t, h);
    var b := t.entries[h].block;
    AdmissibleBlockMeans(net, t.entries[b.previousHash], b);
    WorkDone(h, net.difficultyBits);
  }

  /** The hash of a block commits to its header and to the IDs of its transfers in order. */
  lemma BlockHashCovers(x: Block, y: Block)
    ensures Preimage(x) == Preimage(y)
            <==> && x.version == y.version && x.chainId == y.chainId && x.height == y.height
                 && x.previousHash == y.previousHash && x.timestamp == y.timestamp && x.difficulty == y.difficulty
                 && x.nonce == y.nonce && x.miner == y.miner && x.stateRoot == y.stateRoot
                 && |x.transactions| == |y.transactions|
                 && forall i | 0 <= i < |x.transactions| :: x.transactions[i].txId == y.transactions[i].txId
  {
    if Preimage(x) == Preimage(y) {
      forall i | 0 <= i < |x.transactions| ensures x.transactions[i].txId == y.transactions[i].txId {
        assert TxIds(x.transactions)[i] == TxIds(y.transactions)[i];
      }
    }
    if |x.transactions| == |y.transactions|
       && forall i | 0 <= i < |x.transactions| :: x.transactions[i].txId == y.transactions[i].txId {
      assert TxIds(x.transactions) == TxIds(y.transactions);
    }
  }

  /** The work of a stored block is that of the fixed difficulty once for every height, and the stored transaction IDs
      are those of its branch. */
  lemma WorkAndIds(net: Network, g: Block, t: Tree<Entry>, h: Hash)
    requires GenesisValid(net, g) && Lawful(EngineRule(net, g))
    requires Grown(EngineRule(net, g), t) && h in t.entries
    ensures net.difficultyBits >= 0
    ensures t.entries[h].work == t.entries[h].block.height * Numerals.Power2(net.difficultyBits)
    ensures t.entries[h].txIds == set tx | tx in Flat(Branch(EngineRule(net, g), t, h)) :: tx.txId
  {
    hide RunTransfers, GenesisValid, Lawful, Grown, SteadyWork, Flat;
    GenesisBits(net, g);
    EngineWorkSteady(net, g);
    WorkIsHeight(EngineRule(net, g), t, h, Numerals.Power2(net.difficultyBits));
    StoredEntryIsOneRun(net, g, t, h);
    var txs := Flat(Branch(EngineRule(net, g), t, h));
    RunIsReplay(net, {}, GenesisUtxos(net), txs);
    assert forall k | 0 <= k < |txs| :: TxIds(txs)[k] == txs[k].txId;
  }

  // ---------------------------------------------------------------- genesis

  lemma {:induction false} BeforeTransitive(a: string, b: string, c: string)
    requires Before(a, b) && Before(b, c)
    ensures Before(a, c)
  {
    if a != "" && a[0] == b[0] == c[0] { BeforeTransitive(a[1..], b[1..], c[1..]); }
  }

  lemma {:induction false} NotBeforeItself(a: string)
    ensures !Before(a, a)
  {
    if a != "" { NotBeforeItself(a[1..]); }
  }

  lemma {:induction false} RecipientsAscend(net: Network, i: nat, j: nat)
    requires forall k | 0 <= k < |net.allocations| :: AllocationValid(net, k)
    requires i < j < |net.allocations|
    ensures Before(net.allocations[i].recipient, net.allocations[j].recipient)
    decreases j - i
  {
    hide Before;
    assert AllocationValid(net, j);
    if i < j - 1 {
      RecipientsAscend(net, i, j - 1);
      BeforeTransitive(net.allocations[i].recipient, net.allocations[j - 1].recipient, net.allocations[j].recipient);
    }
  }

  /** A valid genesis names each recipient once with a valid address and a positive amount, issues the maximum supply
      in all, and is itself the empty block of height 0 that commits to the allocated outputs under the pinned hash. */
  lemma GenesisIsSound(net: Network, g: Block)
    requires GenesisValid(net, g)
    ensures net.allocations != [] && AllocationSum(net.allocations) == net.maxSupply
    ensures forall i | 0 <= i < |net.allocations| ::
              net.allocations[i].amount >= 1 && net.addressRule(net.allocations[i].recipient)
    ensures forall i, j | 0 <= i < j < |net.allocations| ::
              net.allocations[i].recipient != net.allocations[j].recipient
    ensures g.version == 2 && g.chainId == net.chainId && g.height == 0 && g.transactions == []
    ensures g.timestamp == net.genesisTimestamp && g.difficulty == 0 && g.nonce == 0
    ensures g.blockHash == net.genesisHash == net.hash(OfBlock(Preimage(g)))
    ensures g.stateRoot == net.hash(OfState(GenesisUtxos(net)))
  {
    hide Before, StateValid, GenesisState;
    forall i | 0 <= i < |net.allocations|
      ensures net.allocations[i].amount >= 1 && net.addressRule(net.allocations[i].recipient)
    {
      assert AllocationValid(net, i);
    }
    forall i, j | 0 <= i < j < |net.allocations|
      ensures net.allocations[i].recipient != net.allocations[j].recipient
    {
      RecipientsAscend(net, i, j);
      NotBeforeItself(net.allocations[i].recipient);
    }
  }

  /** The output and coin of an allocation. */
  ghost predicate Pays(net: Network, i: nat, o: Outpoint, c: Coin)
    requires i < |net.allocations|
  {
    o == Outpoint(AllocationId(net, i), 0) && c == Coin(net.allocations[i].recipient, net.allocations[i].amount)
  }

  /** Each genesis output is that of an allocation. */
  lemma {:induction false} GenesisPaysOnly(net: Network, n: nat, o: Outpoint) returns (i: nat)
    requires n <= |net.allocations| && o in GenesisState(net, n)
    ensures i < n && Pays(net, i, o, GenesisState(net, n)[o])
  {
    hide AllocationId;
    i := n - 1;
    if o != Outpoint(AllocationId(net, n - 1), 0) { i := GenesisPaysOnly(net, n - 1, o); }
  }

  /** Each allocation has its output unless a later one has the same ID. */
  lemma {:induction false} GenesisPaysAll(net: Network, n: nat, i: nat)
    requires i < n <= |net.allocations| && forall j | i < j < n :: AllocationId(net, j) != AllocationId(net, i)
    ensures var o := Outpoint(AllocationId(net, i), 0);
            o in GenesisState(net, n) && Pays(net, i, o, GenesisState(net, n)[o])
  {
    hide AllocationId;
    if i < n - 1 { GenesisPaysAll(net, n - 1, i); }
  }
}
