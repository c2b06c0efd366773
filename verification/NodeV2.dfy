/** The version 2 consensus node: four parallel dictionaries, a tip and an optional block database. */
module NodeV2 {
  import opened Results
  import opened Collections
  import Numerals
  import opened Coins
  import opened ProtocolV2
  import opened BlockTree
  import opened ConsensusV2

  datatype Handshake = Handshake(version: int, chainId: string, manifestDigest: Hash, genesisHash: Hash)

  /** Derives the genesis outputs from the manifest's allocations, checking them on the way. */
  method DeriveGenesis(net: Network) returns (r: Result<Utxos>)
    ensures r.Ok? <==> AllocationsValid(net)
    ensures r.Ok? ==> r.value == GenesisState(net, |net.allocations|)
  {
    if net.allocations == [] { return Rejected("genesis_allocations must be non-empty"); }
    var state: Utxos := map[];
    var previous := "";
    var total := 0;
    for i := 0 to |net.allocations|
      invariant forall k | 0 <= k < i :: AllocationValid(net, k)
      invariant previous == if i == 0 then "" else net.allocations[i - 1].recipient
      invariant total == AllocationSum(net.allocations[..i])
      invariant state == GenesisState(net, i)
    {
      var a := net.allocations[i];
      assert net.allocations[..i + 1][..i] == net.allocations[..i];
      if !IsAddress(net, a.recipient) || !Before(previous, a.recipient) || !IsInteger(a.amount, 1) {
        assert !AllocationValid(net, i);
        return Rejected("genesis allocation is invalid");
      }
      previous := a.recipient;
      total := total + a.amount;
      if total > MAX_I64 {
        assert !AllocationValid(net, i);
        return Rejected("genesis allocation sum overflows");
      }
      state := state[Outpoint(AllocationId(net, i), 0) := Coin(a.recipient, a.amount)];
    }
    assert net.allocations[..|net.allocations|] == net.allocations;
    if total != net.maxSupply { return Rejected("genesis allocation sum must equal max_supply"); }
    return Ok(state);
  }

  method CheckGenesis(net: Network, g: Block) returns (r: Result<Utxos>)
    ensures r.Ok? <==> GenesisValid(net, g)
    ensures r.Ok? ==> r.value == GenesisState(net, |net.allocations|)
  {
    hide GenesisState, AllocationsValid, StateValid;
    if !ParametersValid(net) { return Rejected("profile parameters are invalid"); }
    if !(g.version == 2 && g.chainId == net.chainId && g.height == 0 && g.previousHash == ZERO_HASH
         && g.difficulty == 0 && g.nonce == 0 && g.miner == GENESIS_MINER && g.transactions == []) {
      return Rejected("genesis block fields do not match the v2 genesis rule");
    }
    var state := DeriveGenesis(net);
    if state.Rejected? { return state; }
    var root := ValidateState(net, state.value);
    if root.Rejected? { return Rejected(root.reason); }
    if g.stateRoot != root.value { return Rejected("genesis state_root does not match manifest allocations"); }
    var expected := net.hash(OfBlock(Preimage(g)));
    if g.blockHash != expected || expected != net.genesisHash { return Rejected("genesis hash mismatch"); }
    if g.timestamp != net.genesisTimestamp { return Rejected("genesis timestamp mismatch"); }
    return state;
  }

  /** Validates and applies a block's transfers in order under its parent's state. */
  method RunBlock(net: Network, known: set<Hash>, utxos: Utxos, txs: seq<Transfer>) returns (r: Result<Ledger>)
    ensures r.Ok? <==> RunTransfers(net, known, utxos, txs).Some?
    ensures r.Ok? ==> Some(r.value) == RunTransfers(net, known, utxos, txs)
  {
    var ids: seq<Hash> := [];
    var state := utxos;
    for i := 0 to |txs|
      invariant RunTransfers(net, known, utxos, txs[..i]) == Some(Ledger(state, ids))
    {
      PrefixFails(net, known, utxos, txs, i + 1);
      assert txs[..i + 1][..i] == txs[..i];
      var owners := ValidateTransfer(net, txs[i]);
      if owners.Rejected? { return Rejected(owners.reason); }
      if txs[i].txId in known || txs[i].txId in ids { return Rejected("transaction ID is already on this branch"); }
      var next := ApplyTransfer(txs[i], owners.value, state);
      if next.Rejected? { return Rejected(next.reason); }
      ids := ids + [txs[i].txId];
      state := next.value;
    }
    assert txs[..|txs|] == txs;
    return Ok(Ledger(state, ids));
  }

  lemma {:induction false} PrefixFails(net: Network, known: set<Hash>, utxos: Utxos, txs: seq<Transfer>, i: nat)
    requires i <= |txs|
    ensures RunTransfers(net, known, utxos, txs).Some? ==> RunTransfers(net, known, utxos, txs[..i]).Some?
    decreases |txs|
  {
    if i < |txs| {
      PrefixFails(net, known, utxos, txs[..|txs| - 1], i);
      assert txs[..|txs| - 1][..i] == txs[..i];
    } else {
      assert txs[..i] == txs;
    }
  }

  function InsertByHeight(s: seq<Block>, b: Block): seq<Block>
  {
    if s == [] || s[|s| - 1].height <= b.height then s + [b]
    else InsertByHeight(s[..|s| - 1], b) + [s[|s| - 1]]
  }

  /** A stable sort by height. */
  function SortByHeight(s: seq<Block>): seq<Block>
  {
    if s == [] then [] else InsertByHeight(SortByHeight(s[..|s| - 1]), s[|s| - 1])
  }

  ghost predicate HeightOrder(s: seq<Block>)
  {
    forall i, j | 0 <= i < j < |s| :: s[i].height <= s[j].height
  }

  lemma {:induction false} InsertSorts(s: seq<Block>, b: Block)
    requires HeightOrder(s)
    ensures HeightOrder(InsertByHeight(s, b))
    ensures forall x :: x in InsertByHeight(s, b) <==> x in s || x == b
  {
    if s != [] {
      assert s == s[..|s| - 1] + [s[|s| - 1]];
      if s[|s| - 1].height > b.height {
        InsertSorts(s[..|s| - 1], b);
        var t := InsertByHeight(s[..|s| - 1], b);
        assert forall i | 0 <= i < |t| :: t[i] in s[..|s| - 1] || t[i] == b;
      }
    }
  }

  lemma {:induction false} SortSorts(s: seq<Block>)
    ensures HeightOrder(SortByHeight(s))
    ensures forall x :: x in SortByHeight(s) <==> x in s
  {
    if s != [] {
      SortSorts(s[..|s| - 1]);
      InsertSorts(SortByHeight(s[..|s| - 1]), s[|s| - 1]);
      assert s == s[..|s| - 1] + [s[|s| - 1]];
    }
  }

  /** The full check of a block under its parent. */
  method CheckBlock(net: Network, parent: Entry, b: Block) returns (r: Result<Entry>)
    requires net.difficultyBits >= 0
    ensures r.Ok? <==> Admissible(net, parent, b)
    ensures r.Ok? ==> r.value == ChildEntry(net, parent, b)
  {
    if net.blockSize(b) > net.limits.blockBytes { return Rejected("block exceeds limit"); }
    if |b.transactions| > net.limits.blockTransactions { return Rejected("too many transactions"); }
    var ledger := RunBlock(net, parent.txIds, parent.utxos, b.transactions);
    if ledger.Rejected? { return Rejected(ledger.reason); }
    var total := SumAmounts(ledger.value.utxos);
    if total > net.maxSupply { return Rejected("post-block state exceeds max_supply"); }
    var root := ValidateState(net, ledger.value.utxos);
    if root.Rejected? { return Rejected(root.reason); }
    if b.stateRoot != root.value { return Rejected("state_root mismatch"); }
    if !ContextValid(net, parent.block, b) { return Rejected("block context is invalid"); }
    return Ok(Entry(b, ledger.value.utxos, parent.txIds + Elements(ledger.value.ids),
                    parent.work + Numerals.Power2(net.difficultyBits)));
  }

  /** Four dictionaries with the same keys, read as one tree. */
  ghost function TreeOf(blocks: map<Hash, Block>, states: map<Hash, Utxos>, branchTxIds: map<Hash, set<Hash>>,
                        work: map<Hash, int>, tip: Hash): Tree<Entry>
    requires blocks.Keys == states.Keys == branchTxIds.Keys == work.Keys
  {
    Tree(map h | h in blocks :: Entry(blocks[h], states[h], branchTxIds[h], work[h]), tip)
  }

  lemma TreeOfUpdate(blocks: map<Hash, Block>, states: map<Hash, Utxos>, branchTxIds: map<Hash, set<Hash>>,
                     work: map<Hash, int>, tip: Hash, h: Hash, e: Entry, newTip: Hash)
    requires blocks.Keys == states.Keys == branchTxIds.Keys == work.Keys
    ensures TreeOf(blocks[h := e.block], states[h := e.utxos], branchTxIds[h := e.txIds], work[h := e.work], newTip)
            == Tree(TreeOf(blocks, states, branchTxIds, work, tip).entries[h := e], newTip)
  {
  }

  lemma GenesisMeans(net: Network, g: Block)
    requires GenesisValid(net, g)
    ensures net.difficultyBits >= 0 && g.blockHash == net.genesisHash
    ensures GenesisTree(EngineRule(net, g)) == Tree(map[g.blockHash := GenesisEntry(net, g)], g.blockHash)
    ensures Grown(EngineRule(net, g), GenesisTree(EngineRule(net, g)))
  {
  }

  lemma GrownRoot(r: Rule<Block, Entry>, t: Tree<Entry>)
    requires Grown(r, t)
    ensures GenesisId(r) in t.entries && t.entries[GenesisId(r)] == r.genesis
  {
  }

  lemma EngineReads(net: Network, g: Block)
    requires GenesisValid(net, g)
    ensures net.difficultyBits >= 0 && g.blockHash == net.genesisHash && g.height == 0
    ensures var r := EngineRule(net, g);
            && (forall b :: r.id(b) == b.blockHash && r.parent(b) == b.previousHash && r.height(b) == b.height)
            && (forall e :: r.block(e) == e.block && r.work(e) == e.work)
            && r.genesis == GenesisEntry(net, g) && GenesisId(r) == g.blockHash
  {
  }

  /** What offering a block to the engine comes to. */
  lemma DeliverMeans(net: Network, g: Block, t: Tree<Entry>, b: Block)
    requires net.difficultyBits >= 0 && t.tip in t.entries
    ensures var r := EngineRule(net, g);
            Accepts(r, t, b) <==> b.previousHash in t.entries && Admissible(net, t.entries[b.previousHash], b)
    ensures !Accepts(EngineRule(net, g), t, b) ==> Deliver(EngineRule(net, g), t, b) == t
    ensures var r := EngineRule(net, g);
            Accepts(r, t, b) ==>
              var e := ChildEntry(net, t.entries[b.previousHash], b);
              e.block == b && Deliver(r, t, b) ==
              if b.blockHash in t.entries then t
              else Tree(t.entries[b.blockHash := e],
                        if Wins(e.work, b.blockHash, t.entries[t.tip].work, t.tip) then b.blockHash else t.tip)
  {
  }

  class ConsensusNode {
    const net: Network
    const genesis: Block
    var blocks: map<Hash, Block>
    var states: map<Hash, Utxos>
    var branchTxIds: map<Hash, set<Hash>>
    var work: map<Hash, int>
    var tip: Hash
    /** The block table, when the node has a database path. */
    var table: Option<map<Hash, Block>>

    ghost predicate Aligned()
      reads this`blocks, this`states, this`branchTxIds, this`work, this`tip
    {
      blocks.Keys == states.Keys == branchTxIds.Keys == work.Keys && tip in blocks && net.difficultyBits >= 0
    }

    /** The four dictionaries and the tip as one tree. */
    ghost function View(): (t: Tree<Entry>)
      requires Aligned()
      reads this`blocks, this`states, this`branchTxIds, this`work, this`tip
    {
      TreeOf(blocks, states, branchTxIds, work, tip)
    }

    ghost function Engine(): Rule<Block, Entry>
      requires net.difficultyBits >= 0
    {
      EngineRule(net, genesis)
    }

    ghost predicate Valid()
      reads this`blocks, this`states, this`branchTxIds, this`work, this`tip
    {
      Aligned() && GenesisValid(net, genesis) && Lawful(Engine()) && Grown(Engine(), View())
    }

    /** The database holds exactly the blocks in memory. */
    ghost predicate Persisted()
      reads this
    {
      table.Some? ==> table.value == blocks
    }

    /** The database holds the genesis and otherwise blocks that are in memory too: writes may have failed. */
    ghost predicate Recorded()
      reads this
    {
      table.Some? ==>
        && genesis.blockHash in table.value
        && forall h | h in table.value :: h in blocks && table.value[h] == blocks[h]
    }

    constructor (net: Network, genesis: Block, state: Utxos, table: Option<map<Hash, Block>>)
      requires GenesisValid(net, genesis) && state == GenesisState(net, |net.allocations|)
      ensures Valid() && this.net == net && this.genesis == genesis && this.table == table
      ensures View() == GenesisTree(Engine()) && blocks == map[genesis.blockHash := genesis]
    {
      hide EngineRule, GenesisValid, Admissible, ChildEntry, Lawful, Grown;
      this.net, this.genesis, this.table := net, genesis, table;
      blocks := map[genesis.blockHash := genesis];
      states := map[genesis.blockHash := state];
      branchTxIds := map[genesis.blockHash := {}];
      work := map[genesis.blockHash := 0];
      tip := genesis.blockHash;
      new;
      EngineLawful(net, genesis);
      GenesisMeans(net, genesis);
      assert View() == GenesisTree(Engine());
    }

    /** Checks a block and takes it into memory; a refused or repeated block changes nothing. */
    method TakeBlock(b: Block) returns (r: Result<bool>)
      requires Valid()
      modifies this`blocks, this`states, this`branchTxIds, this`work, this`tip
      ensures Valid()
      ensures r.Ok? <==> Accepts(Engine(), old(View()), b)
      ensures r.Ok? ==> r.value == (b.blockHash !in old(blocks))
      ensures View() == Deliver(Engine(), old(View()), b)
      ensures blocks == if r == Ok(true) then old(blocks)[b.blockHash := b] else old(blocks)
      ensures old(Recorded()) ==> Recorded()
    {
      hide EngineRule, GenesisValid, Admissible, ChildEntry, Lawful, Grown, Accepts, Deliver;
      ghost var before := View();
      DeliverGrows(Engine(), before, b);
      DeliverMeans(net, genesis, before, b);
      if b.previousHash !in blocks { return Rejected("block parent is unknown"); }
      var parent := b.previousHash;
      var entry := CheckBlock(net, Entry(blocks[parent], states[parent], branchTxIds[parent], work[parent]), b);
      if entry.Rejected? { return Rejected(entry.reason); }
      if b.blockHash in blocks { return Ok(false); }
      Store(entry.value, b);
      return Ok(true);
    }

    /** `fails` says that writing the block to the database raises; memory has the block by then. */
    method AcceptBlock(b: Block, persist: bool, fails: bool) returns (r: Result<bool>)
      requires Valid()
      modifies this
      ensures Valid()
      ensures var unknown := Accepts(Engine(), old(View()), b) && b.blockHash !in old(blocks);
              var written := unknown && persist && old(table).Some?;
              && (r.Ok? <==> Accepts(Engine(), old(View()), b) && !(written && fails))
              && (r.Ok? ==> r.value == unknown)
              && blocks == (if unknown then old(blocks)[b.blockHash := b] else old(blocks))
              && table == if written && !fails then Some(old(table).value[b.blockHash := b]) else old(table)
      ensures View() == Deliver(Engine(), old(View()), b)
      ensures old(Recorded()) ==> Recorded()
    {
      hide EngineRule, GenesisValid, Admissible, ChildEntry, Lawful, Grown, Accepts, Deliver;
      r := TakeBlock(b);
      if r == Ok(true) && persist && table.Some? {
        var written := WriteBlock(b, fails);
        if !written { return Rejected("writing the block fails"); }
      }
    }

    /** Inserts a row for a block that memory holds. */
    method WriteBlock(b: Block, fails: bool) returns (written: bool)
      requires table.Some? && b.blockHash in blocks && blocks[b.blockHash] == b
      modifies this`table
      ensures written == !fails
      ensures table == if fails then old(table) else Some(old(table).value[b.blockHash := b])
      ensures old(Recorded()) ==> Recorded()
    {
      if !fails { table := Some(table.value[b.blockHash := b]); }
      return !fails;
    }

    /** Writes a new entry to the four dictionaries and lets it win over the tip. */
    method Store(e: Entry, b: Block)
      requires Aligned() && e.block == b && b.blockHash !in blocks
      modifies this`blocks, this`states, this`branchTxIds, this`work, this`tip
      ensures Aligned() && blocks == old(blocks)[b.blockHash := b]
      ensures View() == Tree(old(View()).entries[b.blockHash := e],
                             if Wins(e.work, b.blockHash, old(work)[old(tip)], old(tip)) then b.blockHash else old(tip))
    {
      var wins := Wins(e.work, b.blockHash, work[tip], tip);
      TreeOfUpdate(blocks, states, branchTxIds, work, tip, b.blockHash, e, if wins then b.blockHash else tip);
      blocks, states := blocks[b.blockHash := b], states[b.blockHash := e.utxos];
      branchTxIds, work := branchTxIds[b.blockHash := e.txIds], work[b.blockHash := e.work];
      if wins { tip := b.blockHash; }
    }

    /** The canonical chain, found by walking parents from the tip. */
    method CanonicalBlocks() returns (s: seq<Block>)
      requires Valid()
      ensures s == [genesis] + Branch(Engine(), View(), tip)
    {
      hide EngineRule, GenesisValid, Lawful, Grown;
      ghost var t, r := View(), Engine();
      EngineReads(net, genesis);
      GrownRoot(r, t);
      EngineReads(net, genesis);
      var current := tip;
      s := [];
      Rooted(r, t, current);
      while blocks[current].height != 0
        invariant current in blocks && blocks[current].height >= 0
        invariant Branch(r, t, tip) == Branch(r, t, current) + s
        decreases blocks[current].height
      {
        Rooted(r, t, current);
        s := [blocks[current]] + s;
        current := blocks[current].previousHash;
        Rooted(r, t, current);
      }
      Rooted(r, t, current);
      assert current == GenesisId(r);
      s := [blocks[current]] + s;
    }

    method HandshakeOf() returns (h: Handshake)
      ensures h == Handshake(2, net.chainId, net.manifestDigest, net.genesisHash)
    {
      return Handshake(2, net.chainId, net.manifestDigest, net.genesisHash);
    }

    /** Accepts a peer's chain in order; a refused block raises and leaves what was accepted before it. */
    method SyncFrom(remote: Handshake, remoteBlocks: seq<Block>) returns (r: Result<bool>)
      requires Valid() && Persisted()
      modifies this
      ensures Valid() && Persisted()
      ensures remote != Handshake(2, net.chainId, net.manifestDigest, net.genesisHash)
              || remoteBlocks == [] || remoteBlocks[0].blockHash != net.genesisHash
              ==> r.Rejected? && View() == old(View())
      ensures remote == Handshake(2, net.chainId, net.manifestDigest, net.genesisHash)
              && remoteBlocks != [] && remoteBlocks[0].blockHash == net.genesisHash
              ==> View() == Sync(Engine(), old(View()), remoteBlocks[1..]).tree
                  && r.Ok? == Sync(Engine(), old(View()), remoteBlocks[1..]).ok
      ensures RankNotLower(Engine(), old(View()), View())
    {
      hide EngineRule, GenesisValid, Admissible, ChildEntry, Lawful, Grown;
      var own := HandshakeOf();
      if remote != own { return Rejected("peer handshake does not match"); }
      if remoteBlocks == [] || remoteBlocks[0].blockHash != net.genesisHash {
        return Rejected("peer chain has a different genesis");
      }
      ghost var before, s := View(), remoteBlocks[1..];
      SyncGrows(Engine(), before, s);
      for i := 1 to |remoteBlocks|
        invariant Valid() && Persisted()
        invariant Sync(Engine(), before, s[..i - 1]) == Progress(View(), true)
      {
        assert s[..i][..i - 1] == s[..i - 1] && s[i - 1] == remoteBlocks[i];
        var accepted := AcceptBlock(remoteBlocks[i], true, false);
        if accepted.Rejected? {
          SyncStops(Engine(), before, s, i);
          return Rejected(accepted.reason);
        }
      }
      assert s[..|s|] == s;
      return Ok(true);
    }

    /** Accepts stored blocks in the given order, skipping the genesis. */
    method ReplayRows(s: seq<Block>) returns (ok: bool)
      requires Valid() && View() == GenesisTree(Engine())
      modifies this
      ensures Valid() && table == old(table)
      ensures ok == Reload(Engine(), s).Some?
      ensures ok ==> Some(View()) == Reload(Engine(), s)
    {
      hide EngineRule, GenesisValid, Admissible, ChildEntry, Lawful, Grown;
      EngineReads(net, genesis);
      for i := 0 to |s|
        invariant Valid() && table == old(table)
        invariant Reload(Engine(), s[..i]) == Some(View())
      {
        assert s[..i + 1][..i] == s[..i];
        if s[i].blockHash != net.genesisHash {
          var accepted := AcceptBlock(s[i], false, false);
          if accepted.Rejected? {
            ReloadStops(Engine(), s, i + 1);
            return false;
          }
        }
      }
      assert s[..|s|] == s;
      return true;
    }

    /** Starts a node on an optional database: a fresh table gets the genesis, another is replayed by height. */
    static method Open(net: Network, genesis: Block, table: Option<map<Hash, Block>>)
      returns (r: Result<ConsensusNode>)
      ensures r.Ok? ==> fresh(r.value) && r.value.Valid() && r.value.net == net && r.value.genesis == genesis
      ensures table.None? || table.value == map[] ==> r.Ok? == GenesisValid(net, genesis)
      ensures r.Ok? && (table.None? || table.value == map[]) ==>
                r.value.View() == GenesisTree(r.value.Engine()) && r.value.Persisted()
      ensures GenesisValid(net, genesis) && table.Some? && table.value != map[] ==>
                exists s :: RowOrder(table.value, s)
                            && r.Ok? == (HasGenesis(net, s) && Reload(EngineRule(net, genesis), s).Some?)
                            && (r.Ok? ==> Some(r.value.View()) == Reload(EngineRule(net, genesis), s)
                                          && r.value.table == table)
    {
      hide EngineRule, GenesisValid, Admissible, ChildEntry, Lawful, Grown, Reload;
      var state := CheckGenesis(net, genesis);
      if state.Rejected? { return Rejected(state.reason); }
      if table.None? || table.value == map[] {
        var initial := if table.None? then table else Some(map[genesis.blockHash := genesis]);
        var node := new ConsensusNode(net, genesis, state.value, initial);
        return Ok(node);
      }
      var node := new ConsensusNode(net, genesis, state.value, table);
      var rows := ReadValues(table.value);
      var s := SortByHeight(rows);
      SortSorts(rows);
      assert RowOrder(table.value, s);
      if !HasGenesis(net, s) { return Rejected("database is missing the configured genesis"); }
      var replayed := node.ReplayRows(s);
      if !replayed { return Rejected("a stored block is refused"); }
      return Ok(node);
    }
  }

  /** Some listed block bears the configured genesis hash. */
  predicate HasGenesis(net: Network, s: seq<Block>)
  {
    exists i | 0 <= i < |s| :: s[i].blockHash == net.genesisHash
  }

  /** The payloads of a block table in some order that never decreases in height. */
  ghost predicate RowOrder(rows: map<Hash, Block>, s: seq<Block>)
  {
    && (forall b :: b in s <==> exists h | h in rows :: rows[h] == b)
    && HeightOrder(s)
  }

  lemma {:induction false} SyncStops(r: Rule<Block, Entry>, t: Tree<Entry>, s: seq<Block>, i: nat)
    requires t.tip in t.entries && i <= |s| && !Sync(r, t, s[..i]).ok
    ensures Sync(r, t, s) == Sync(r, t, s[..i])
    decreases |s|
  {
    if i < |s| {
      assert s[..|s| - 1][..i] == s[..i];
      SyncStops(r, t, s[..|s| - 1], i);
    } else {
      assert s[..i] == s;
    }
  }

  lemma {:induction false} ReloadStops(r: Rule<Block, Entry>, s: seq<Block>, i: nat)
    requires i <= |s| && Reload(r, s[..i]).None?
    ensures Reload(r, s).None?
    decreases |s|
  {
    if i < |s| {
      assert s[..|s| - 1][..i] == s[..i];
      ReloadStops(r, s[..|s| - 1], i);
    } else {
      assert s[..i] == s;
    }
  }

  /** The parent of every row is a row, or the row is the genesis. */
  predicate ParentsStored(rows: map<Hash, Block>, genesisHash: Hash)
  {
    forall h | h in rows && h != genesisHash :: rows[h].previousHash in rows
  }

  lemma RowsListed(net: Network, g: Block, t: Tree<Entry>, rows: map<Hash, Block>, s: seq<Block>)
    requires GenesisValid(net, g) && Lawful(EngineRule(net, g)) && Grown(EngineRule(net, g), t)
    requires g.blockHash in rows && forall h | h in rows :: h in t.entries && rows[h] == t.entries[h].block
    requires RowOrder(rows, s)
    ensures ListsSome(EngineRule(net, g), t, s) && ByHeight(EngineRule(net, g), s) && HasGenesis(net, s)
    ensures forall h :: Contains(EngineRule(net, g), s, h) <==> h in rows
  {
    hide EngineRule, GenesisValid, Admissible, ChildEntry, Lawful, Grown;
    EngineReads(net, g);
    var r := EngineRule(net, g);
    forall h | h in rows ensures rows[h].blockHash == h {
      Rooted(r, t, h);
    }
    forall h ensures Contains(r, s, h) <==> h in rows {
      if h in rows {
        assert rows[h] in s;
        var i :| 0 <= i < |s| && s[i] == rows[h];
        assert r.id(s[i]) == h;
      }
      if Contains(r, s, h) {
        var i :| 0 <= i < |s| && r.id(s[i]) == h;
        assert s[i] in s;
      }
    }
    GenesisRow(net, g, t);
    assert rows[g.blockHash] in s;
  }

  lemma GenesisRow(net: Network, g: Block, t: Tree<Entry>)
    requires GenesisValid(net, g) && Grown(EngineRule(net, g), t)
    ensures g.blockHash in t.entries && t.entries[g.blockHash].block == g && g.blockHash == net.genesisHash
  {
    hide GenesisValid;
    GenesisMeans(net, g);
    EngineReads(net, g);
  }

  lemma ClosedRowsListed(net: Network, g: Block, t: Tree<Entry>, rows: map<Hash, Block>, s: seq<Block>)
    requires GenesisValid(net, g) && Lawful(EngineRule(net, g)) && Grown(EngineRule(net, g), t)
    requires g.blockHash in rows && forall h | h in rows :: h in t.entries && rows[h] == t.entries[h].block
    requires RowOrder(rows, s)
    ensures ParentsListed(EngineRule(net, g), s) <==> ParentsStored(rows, g.blockHash)
  {
    hide EngineRule, GenesisValid, Admissible, ChildEntry, Lawful, Grown, Contains;
    EngineReads(net, g);
    var r := EngineRule(net, g);
    RowsListed(net, g, t, rows, s);
    forall h | h in rows ensures rows[h].blockHash == h && rows[h] in s {
      Rooted(r, t, h);
    }
    if ParentsListed(r, s) {
      forall h | h in rows && h != g.blockHash ensures rows[h].previousHash in rows {
        var i :| 0 <= i < |s| && s[i] == rows[h];
      }
    }
    if ParentsStored(rows, g.blockHash) {
      forall i | 0 <= i < |s| && r.id(s[i]) != GenesisId(r) ensures Contains(r, s, r.parent(s[i])) {
        assert s[i] in s;
      }
    }
  }

  lemma SameKeys(u: Tree<Entry>, rows: map<Hash, Block>)
    requires forall h :: h in u.entries <==> h in rows
    ensures u.entries.Keys == rows.Keys
  {
    assert forall h :: h in u.entries.Keys <==> h in rows.Keys;
  }

  /** A table of some of the tree's blocks replays exactly when it holds the parent of each, to the part of the tree
      that it holds. */
  lemma TableReplaysIff(net: Network, g: Block, t: Tree<Entry>, rows: map<Hash, Block>, s: seq<Block>)
    requires GenesisValid(net, g) && Lawful(EngineRule(net, g)) && Grown(EngineRule(net, g), t)
    requires g.blockHash in rows && forall h | h in rows :: h in t.entries && rows[h] == t.entries[h].block
    requires RowOrder(rows, s)
    ensures HasGenesis(net, s)
    ensures Reload(EngineRule(net, g), s).Some? <==> ParentsStored(rows, g.blockHash)
    ensures Reload(EngineRule(net, g), s).Some? ==>
              var u := Reload(EngineRule(net, g), s).value;
              Grown(EngineRule(net, g), u) && Includes(u, t) && u.entries.Keys == rows.Keys
  {
    hide EngineRule, GenesisValid, Lawful, Grown, Reload, Contains, ParentsStored;
    EngineReads(net, g);
    RowsListed(net, g, t, rows, s);
    ClosedRowsListed(net, g, t, rows, s);
    var r := EngineRule(net, g);
    ReloadIffParentsListed(r, t, s);
    if Reload(r, s).Some? {
      var u := Reload(r, s).value;
      assert forall h :: h in u.entries <==> h in rows;
      SameKeys(u, rows);
    }
  }

  lemma WholeTableStored(net: Network, g: Block, t: Tree<Entry>, rows: map<Hash, Block>)
    requires GenesisValid(net, g) && Lawful(EngineRule(net, g)) && Grown(EngineRule(net, g), t)
    requires rows.Keys == t.entries.Keys && forall h | h in rows :: rows[h] == t.entries[h].block
    ensures g.blockHash in rows && ParentsStored(rows, g.blockHash)
  {
    hide EngineRule, GenesisValid, Admissible, ChildEntry, Lawful, Grown;
    EngineReads(net, g);
    GenesisRow(net, g, t);
    forall h | h in rows && h != g.blockHash ensures rows[h].previousHash in rows {
      Rooted(EngineRule(net, g), t, h);
    }
  }

  /** The part of a tree that holds all its entries is the tree. */
  lemma WholePart(net: Network, g: Block, u: Tree<Entry>, t: Tree<Entry>)
    requires net.difficultyBits >= 0
    requires Grown(EngineRule(net, g), u) && Grown(EngineRule(net, g), t)
    requires Includes(u, t) && u.entries.Keys == t.entries.Keys
    ensures u == t
  {
    hide EngineRule;
    assert Includes(t, u);
    MutualInclusion(u, t);
    BestTipUnique(EngineRule(net, g), u, t);
  }

  /** A reopened node holds the rows as its blocks. */
  lemma PartHoldsRows(reopened: ConsensusNode, t: Tree<Entry>, rows: map<Hash, Block>)
    requires reopened.Aligned() && Includes(reopened.View(), t) && reopened.View().entries.Keys == rows.Keys
    requires forall h | h in rows :: h in t.entries && rows[h] == t.entries[h].block
    ensures reopened.blocks == rows
  {
    assert reopened.blocks.Keys == reopened.View().entries.Keys;
    forall h | h in rows ensures h in reopened.blocks && reopened.blocks[h] == rows[h] {
      assert reopened.View().entries[h] == t.entries[h];
    }
  }

  /** Closing a node and opening a new one on its database. It succeeds exactly when the database holds the parent of
      every block in it, which a failed write can break; the new node has those blocks with the entries they had, and
      the best of them as its tip. When no write failed it is the very same tree. */
  method Restart(node: ConsensusNode) returns (r: Result<ConsensusNode>)
    requires node.Valid() && node.Recorded() && node.table.Some?
    ensures r.Ok? <==> ParentsStored(node.table.value, node.genesis.blockHash)
    ensures r.Ok? ==> r.value.Valid() && r.value.net == node.net && r.value.genesis == node.genesis
    ensures r.Ok? ==> r.value.table == node.table && r.value.blocks == node.table.value
                      && Includes(r.value.View(), node.View())
    ensures node.Persisted() ==> r.Ok? && r.value.View() == node.View()
  {
    hide EngineRule, GenesisValid, Admissible, ChildEntry, Lawful, Grown, Reload, ParentsStored;
    ghost var rows, t := node.table.value, node.View();
    forall s | RowOrder(rows, s)
      ensures HasGenesis(node.net, s)
      ensures Reload(node.Engine(), s).Some? <==> ParentsStored(rows, node.genesis.blockHash)
      ensures Reload(node.Engine(), s).Some? ==>
                var u := Reload(node.Engine(), s).value;
                Grown(node.Engine(), u) && Includes(u, t) && u.entries.Keys == rows.Keys
    {
      TableReplaysIff(node.net, node.genesis, t, rows, s);
    }
    if node.Persisted() { WholeTableStored(node.net, node.genesis, t, rows); }
    assert node.genesis.blockHash in rows;
    r := ConsensusNode.Open(node.net, node.genesis, node.table);
    if r.Ok? {
      PartHoldsRows(r.value, t, rows);
      if node.Persisted() { WholePart(node.net, node.genesis, r.value.View(), t); }
    }
  }
}
