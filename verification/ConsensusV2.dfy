/** Block admission of the version 2 engine, and what its runs keep. */
module ConsensusV2 {
  import opened Results
  import opened Collections
  import Numerals
  import opened Coins
  import opened ProtocolV2
  import opened BlockTree

  /** What a node memoises for one stored block. */
  datatype Entry = Entry(block: Block, utxos: Utxos, txIds: set<Hash>, work: int)

  /** The running result of a block's transfers. */
  datatype Ledger = Ledger(utxos: Utxos, ids: seq<Hash>)

  /** One transfer fits after a ledger whose branch already holds the IDs in `known`. */
  predicate Fits(net: Network, known: set<Hash>, l: Ledger, tx: Transfer)
  {
    && TransferValid(net, tx)
    && tx.txId !in known && tx.txId !in l.ids
    && TransferApplies(tx, Owners(net, tx), l.utxos)
  }

  function Extended(l: Ledger, tx: Transfer): Ledger
  {
    Ledger(Applied(l.utxos, tx), l.ids + [tx.txId])
  }

  function RunTransfers(net: Network, known: set<Hash>, utxos: Utxos, txs: seq<Transfer>): Option<Ledger>
  {
    if txs == [] then Some(Ledger(utxos, []))
    else
      var front, tx := txs[..|txs| - 1], txs[|txs| - 1];
      match RunTransfers(net, known, utxos, front)
      case None => None
      case Some(l) => if Fits(net, known, l, tx) then Some(Extended(l, tx)) else None
  }

  ghost predicate StateAccepted(net: Network, utxos: Utxos, root: Hash)
  {
    Total(utxos) <= net.maxSupply && StateValid(net, utxos) && root == net.hash(OfState(utxos))
  }

  /** The whole acceptance rule: it reads the block and its parent's entry and nothing else. */
  ghost predicate Admissible(net: Network, parent: Entry, b: Block)
  {
    && net.blockSize(b) <= net.limits.blockBytes
    && |b.transactions| <= net.limits.blockTransactions
    && RunTransfers(net, parent.txIds, parent.utxos, b.transactions).Some?
    && StateAccepted(net, RunTransfers(net, parent.txIds, parent.utxos, b.transactions).value.utxos, b.stateRoot)
    && ContextValid(net, parent.block, b)
  }

  function ChildEntry(net: Network, parent: Entry, b: Block): Entry
    requires RunTransfers(net, parent.txIds, parent.utxos, b.transactions).Some?
    requires net.difficultyBits >= 0
  {
    var l := RunTransfers(net, parent.txIds, parent.utxos, b.transactions).value;
    Entry(b, l.utxos, parent.txIds + Elements(l.ids), parent.work + Numerals.Power2(net.difficultyBits))
  }

  function GenesisState(net: Network, n: nat): Utxos
    requires n <= |net.allocations|
  {
    if n == 0 then map[]
    else
      var a := net.allocations[n - 1];
      GenesisState(net, n - 1)[Outpoint(AllocationId(net, n - 1), 0) := Coin(a.recipient, a.amount)]
  }

  function AllocationPreimage(net: Network, i: nat): Hashed
    requires i < |net.allocations|
  {
    OfAllocation(net.chainId, i, net.allocations[i].recipient, net.allocations[i].amount)
  }

  function AllocationId(net: Network, i: nat): Hash
    requires i < |net.allocations|
  {
    net.hash(AllocationPreimage(net, i))
  }

  function AllocationSum(allocations: seq<Allocation>): int
  {
    if allocations == [] then 0
    else AllocationSum(allocations[..|allocations| - 1]) + allocations[|allocations| - 1].amount
  }

  /** Text order by code point, as the source compares recipients. */
  predicate Before(a: string, b: string)
  {
    if b == "" then false
    else if a == "" then true
    else a[0] < b[0] || (a[0] == b[0] && Before(a[1..], b[1..]))
  }

  predicate AllocationValid(net: Network, i: nat)
    requires i < |net.allocations|
  {
    && IsAddress(net, net.allocations[i].recipient)
    && Before(if i == 0 then "" else net.allocations[i - 1].recipient, net.allocations[i].recipient)
    && IsInteger(net.allocations[i].amount, 1)
    && AllocationSum(net.allocations[..i + 1]) <= MAX_I64
  }

  predicate AllocationsValid(net: Network)
  {
    && net.allocations != []
    && (forall i | 0 <= i < |net.allocations| :: AllocationValid(net, i))
    && AllocationSum(net.allocations) == net.maxSupply
  }

  predicate ParametersValid(net: Network)
  {
    && 1 <= net.difficultyBits <= 16
    && 1 <= net.maxStep <= MAX_STEP_US
    && IsInteger(net.maxSupply, 1)
    && IsInteger(net.genesisTimestamp, 0)
    && |net.allocations| <= 100_000
  }

  /** `g` is the genesis block the manifest pins. */
  predicate GenesisValid(net: Network, g: Block)
  {
    && ParametersValid(net)
    && g.version == 2 && g.chainId == net.chainId && g.height == 0 && g.previousHash == ZERO_HASH
    && g.difficulty == 0 && g.nonce == 0 && g.miner == GENESIS_MINER && g.transactions == []
    && AllocationsValid(net)
    && StateValid(net, GenesisState(net, |net.allocations|))
    && g.stateRoot == net.hash(OfState(GenesisState(net, |net.allocations|)))
    && g.blockHash == net.hash(OfBlock(Preimage(g))) == net.genesisHash
    && g.timestamp == net.genesisTimestamp
  }

  function GenesisEntry(net: Network, g: Block): Entry
  {
    Entry(g, GenesisState(net, |net.allocations|), {}, 0)
  }

  /** The engine as an admission rule over a tree of blocks. */
  ghost function EngineRule(net: Network, g: Block): Rule<Block, Entry>
    requires net.difficultyBits >= 0
  {
    Rule((b: Block) => b.blockHash, (b: Block) => b.previousHash, (b: Block) => b.height,
         (b: Block) => Committed(net, b), (e: Entry) => e.block, (e: Entry) => e.work,
         (e: Entry, b: Block) => if Admissible(net, e, b) then Some(ChildEntry(net, e, b)) else None,
         GenesisEntry(net, g))
  }

  lemma AdmissibleMeans(net: Network, e: Entry, b: Block)
    requires Admissible(net, e, b)
    ensures Committed(net, b) && net.difficultyBits >= 0
    ensures b.previousHash == e.block.blockHash && b.height == e.block.height + 1 && b.height >= 0
    ensures RunTransfers(net, e.txIds, e.utxos, b.transactions).Some?
  {
    hide RunTransfers, StateAccepted, Numerals.Power2;
    RanValid(net, e.txIds, e.utxos, b.transactions);
    forall tx | tx in b.transactions ensures tx.txId == net.hash(OfTransfer(Body(tx))) {
      assert TransferValid(net, tx);
    }
  }

  lemma EngineLawful(net: Network, g: Block)
    requires GenesisValid(net, g)
    ensures Lawful(EngineRule(net, g)) && GenesisId(EngineRule(net, g)) == net.genesisHash
  {
    hide Admissible, Committed, RunTransfers, AllocationsValid, StateValid;
    forall e, b | Admissible(net, e, b)
      ensures Committed(net, b) && b.previousHash == e.block.blockHash
      ensures b.height == e.block.height + 1 && b.height >= 0
    {
      AdmissibleMeans(net, e, b);
    }
  }

  lemma {:induction false} RanValid(net: Network, known: set<Hash>, utxos: Utxos, txs: seq<Transfer>)
    requires RunTransfers(net, known, utxos, txs).Some?
    ensures forall tx | tx in txs :: TransferValid(net, tx)
  {
    if txs != [] {
      RanValid(net, known, utxos, txs[..|txs| - 1]);
    }
  }

  // ---------------------------------------------------------------- hash commitments

  /** The block's own hash and its transfers' IDs are the hashes of their preimages. */
  ghost predicate Committed(net: Network, b: Block)
  {
    && b.blockHash == net.hash(OfBlock(Preimage(b)))
    && forall tx | tx in b.transactions :: tx.txId == net.hash(OfTransfer(Body(tx)))
  }

  /** Two different preimages have one hash. */
  predicate Collide(net: Network, x: Hashed, y: Hashed)
  {
    x != y && net.hash(x) == net.hash(y)
  }

  ghost predicate BlockHashCollision(net: Network, a: Block, b: Block)
  {
    Collide(net, OfBlock(Preimage(a)), OfBlock(Preimage(b)))
  }

  ghost predicate TransferHashCollision(net: Network, x: Transfer, y: Transfer)
  {
    Collide(net, OfTransfer(Body(x)), OfTransfer(Body(y)))
  }

  /** Two different preimages under one hash, both taken from these blocks. */
  ghost predicate ExhibitsCollision(net: Network, blocks: set<Block>)
  {
    || (exists a, b | a in blocks && b in blocks :: BlockHashCollision(net, a, b))
    || (exists a, b, x, y | a in blocks && b in blocks && x in a.transactions && y in b.transactions ::
          TransferHashCollision(net, x, y))
  }

  lemma SameHashSameBlock(net: Network, blocks: set<Block>, a: Block, b: Block)
    requires a in blocks && b in blocks
    requires Committed(net, a) && Committed(net, b) && a.blockHash == b.blockHash
    ensures a == b || ExhibitsCollision(net, blocks)
  {
    if !BlockHashCollision(net, a, b) && a != b {
      assert TxIds(a.transactions) == TxIds(b.transactions);
      assert a.transactions != b.transactions;
      var i :| 0 <= i < |a.transactions| && a.transactions[i] != b.transactions[i];
      var x, y := a.transactions[i], b.transactions[i];
      assert TxIds(a.transactions)[i] == TxIds(b.transactions)[i];
      assert Body(x) == Body(y) ==> x == y;
      assert TransferHashCollision(net, x, y);
    }
  }

  lemma ClashIsCollision(net: Network, g: Block, blocks: set<Block>)
    requires net.difficultyBits >= 0
    requires Clash(EngineRule(net, g), blocks)
    ensures ExhibitsCollision(net, blocks)
  {
    var r := EngineRule(net, g);
    var a, b :| a in blocks && b in blocks && a != b && r.genuine(a) && r.genuine(b) && r.id(a) == r.id(b);
    SameHashSameBlock(net, blocks, a, b);
  }

  // ---------------------------------------------------------------- runs

  /** Nodes of one network fed blocks parents first, such that what either stored was offered to the other, end with
      equal trees, states, work and tip, whatever the order and repetitions and whatever refused blocks only one of
      them saw, unless two of the blocks offered to one of them exhibit a hash collision. */
  lemma OrderIndependence(net: Network, g: Block, s1: seq<Block>, s2: seq<Block>)
    requires GenesisValid(net, g)
    requires ParentsFirst(EngineRule(net, g), s1) && ParentsFirst(EngineRule(net, g), s2)
    requires Offered(EngineRule(net, g), s1, s2) && Offered(EngineRule(net, g), s2, s1)
    ensures || Run(EngineRule(net, g), s1) == Run(EngineRule(net, g), s2)
            || ExhibitsCollision(net, Elements(s1)) || ExhibitsCollision(net, Elements(s2))
  {
    var r := EngineRule(net, g);
    EngineLawful(net, g);
    ParentsFirstSaturates(r, s1);
    ParentsFirstSaturates(r, s2);
    SaturatedRunsAgree(r, s1, s2);
    if Clash(r, Elements(s1)) { ClashIsCollision(net, g, Elements(s1)); }
    if Clash(r, Elements(s2)) { ClashIsCollision(net, g, Elements(s2)); }
  }

  /** In particular it is enough that both were offered the same set of blocks. */
  lemma SameBlocksSameTree(net: Network, g: Block, s1: seq<Block>, s2: seq<Block>)
    requires GenesisValid(net, g)
    requires ParentsFirst(EngineRule(net, g), s1) && ParentsFirst(EngineRule(net, g), s2)
    requires Elements(s1) == Elements(s2)
    ensures Run(EngineRule(net, g), s1) == Run(EngineRule(net, g), s2) || ExhibitsCollision(net, Elements(s1))
  {
    hide EngineRule, Run, ExhibitsCollision, ParentsFirst, AllocationsValid, StateValid;
    EngineLawful(net, g);
    StoredWasOffered(EngineRule(net, g), s1);
    StoredWasOffered(EngineRule(net, g), s2);
    assert forall b :: (b in s1 <==> b in Elements(s1)) && (b in s2 <==> b in Elements(s2));
    OrderIndependence(net, g, s1, s2);
  }

  /** Reopening a database that holds exactly the blocks of any run, replaying them by height, restores that
      run's tree, memoised states, work and tip, and refuses no row. */
  lemma RestartRestoresRun(net: Network, g: Block, s: seq<Block>, rows: seq<Block>)
    requires GenesisValid(net, g)
    requires Lists(EngineRule(net, g), Run(EngineRule(net, g), s), rows)
    requires ByHeight(EngineRule(net, g), rows)
    ensures Reload(EngineRule(net, g), rows) == Some(Run(EngineRule(net, g), s))
  {
    EngineLawful(net, g);
    assert s[..|s|] == s;
    RunGrown(EngineRule(net, g), s, |s|);
    RestartRestores(EngineRule(net, g), Run(EngineRule(net, g), s), rows);
  }

  /** Two nodes that synchronise from each other in turn end on the better of their two tips with equal
      canonical states, unless their blocks exhibit a hash collision. */
  lemma PairwiseSyncConverges(net: Network, g: Block, a: Tree<Entry>, b: Tree<Entry>)
    requires GenesisValid(net, g)
    requires Lawful(EngineRule(net, g))
    requires Grown(EngineRule(net, g), a) && Grown(EngineRule(net, g), b)
    ensures var r := EngineRule(net, g);
            || ExhibitsCollision(net, Blocks(r, a) + Blocks(r, b))
            || (var p := Sync(r, a, Branch(r, b, b.tip));
                && p.ok && Grown(r, p.tree)
                && var q := Sync(r, b, Branch(r, p.tree, p.tree.tip));
                && q.ok
                && p.tree.tip == q.tree.tip == BetterTip(r, a, b)
                && p.tree.entries[p.tree.tip] == q.tree.entries[q.tree.tip])
  {
    var r := EngineRule(net, g);
    if Clash(r, Blocks(r, a) + Blocks(r, b)) {
      ClashIsCollision(net, g, Blocks(r, a) + Blocks(r, b));
    } else {
      MutualSync(r, a, b);
    }
  }

  /** Every accepted block adds the work of the manifest's fixed difficulty. */
  lemma EngineWorkSteady(net: Network, g: Block)
    requires GenesisValid(net, g)
    ensures SteadyWork(EngineRule(net, g), Numerals.Power2(net.difficultyBits))
  {
    hide Admissible;
  }

  /** The tip of every reachable tree is the highest stored block, and of the highest ones that with the smallest
      hash. */
  lemma TipIsHighest(net: Network, g: Block, t: Tree<Entry>, h: Hash)
    requires GenesisValid(net, g) && Lawful(EngineRule(net, g))
    requires Grown(EngineRule(net, g), t) && h in t.entries
    ensures t.tip in t.entries && t.entries[h].block.height <= t.entries[t.tip].block.height
    ensures t.entries[h].block.height == t.entries[t.tip].block.height ==> t.tip <= h
  {
    hide Lawful, SteadyWork, Admissible, AllocationsValid, StateValid;
    EngineWorkSteady(net, g);
    SteadyTipIsHighest(EngineRule(net, g), t, h, Numerals.Power2(net.difficultyBits));
  }
}
