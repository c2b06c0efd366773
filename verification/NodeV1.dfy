/** The version 0.1 node: block validation, the block table with its cached tables, and the choice of chain. */
module NodeV1 {
  import opened Results
  import opened Collections
  import opened Coins
  import Currency
  import Numerals
  import opened ChainV1
  import opened BranchesV1
  import AcceptedV1
  import opened LimitsV1

  // ---------------------------------------------------------------- stored blocks and their paths

  type Blocks = map<Hash, Block>

  /** Stored blocks lead back to a genesis: each bears its key and stands one above its stored parent. */
  ghost predicate Linked(blocks: Blocks)
  {
    && ZERO_HASH !in blocks
    && forall h | h in blocks ::
         && blocks[h].blockHash == h
         && blocks[h].index >= 0
         && (blocks[h].index == 0 ==> blocks[h].previousHash == ZERO_HASH)
         && (blocks[h].index != 0 ==>
               && blocks[h].previousHash in blocks
               && blocks[blocks[h].previousHash].index == blocks[h].index - 1)
  }

  /** The blocks from the root to a hash. */
  ghost function PathTo(blocks: Blocks, h: Hash): seq<Block>
    requires Linked(blocks)
    decreases if h in blocks then blocks[h].index + 1 else 0
  {
    if h !in blocks then [] else PathTo(blocks, blocks[h].previousHash) + [blocks[h]]
  }

  function BlockWork(difficulty: int): int { Pow16(if difficulty > 0 then difficulty else 0) }

  function WorkOf(path: seq<Block>): int
  {
    if path == [] then 0 else WorkOf(path[..|path| - 1]) + BlockWork(path[|path| - 1].difficulty)
  }

  /** The order of heads: more work, then the greater hash. */
  predicate Beats(work: int, h: Hash, otherWork: int, other: Hash)
  {
    work > otherWork || (work == otherWork && h > other)
  }

  ghost predicate AllValid(cfg: Config, blocks: Blocks)
  {
    Linked(blocks) && forall h | h in blocks :: BranchValid(cfg, PathTo(blocks, h))
  }

  /** This block beats every other one of a set of stored blocks. */
  ghost predicate IsBestAmong(blocks: Blocks, some: set<Hash>, best: Hash)
  {
    && Linked(blocks)
    && some <= blocks.Keys && best in some
    && forall h | h in some && h != best :: Beats(WorkOf(PathTo(blocks, best)), best, WorkOf(PathTo(blocks, h)), h)
  }

  ghost predicate IsBest(blocks: Blocks, best: Hash) { IsBestAmong(blocks, blocks.Keys, best) }

  /** The block may be imported now; a genesis only while no head is recorded. */
  ghost predicate Importable(cfg: Config, env: Env, blocks: Blocks, headless: bool, b: Block)
    requires Linked(blocks)
  {
    && b.blockHash !in blocks
    && if b.index == 0 then headless && GenesisValid(cfg, env, b)
       else b.previousHash in blocks && BlockValid(cfg, env, PathTo(blocks, b.previousHash), b)
  }

  lemma {:induction false} PathUnaffected(blocks: Blocks, b: Block, h: Hash)
    requires Linked(blocks) && Linked(blocks[b.blockHash := b]) && b.blockHash !in blocks && h in blocks
    ensures PathTo(blocks[b.blockHash := b], h) == PathTo(blocks, h)
    decreases blocks[h].index
  {
    if blocks[h].index != 0 {
      PathUnaffected(blocks, b, blocks[h].previousHash);
    }
  }

  lemma {:induction false} PathEnds(blocks: Blocks, h: Hash)
    requires Linked(blocks) && h in blocks
    ensures var path := PathTo(blocks, h);
            path != [] && path[|path| - 1] == blocks[h] && path[..|path| - 1] == PathTo(blocks, blocks[h].previousHash)
    ensures |PathTo(blocks, h)| == blocks[h].index + 1
    decreases blocks[h].index
  {
    var front := PathTo(blocks, blocks[h].previousHash);
    assert PathTo(blocks, h) == front + [blocks[h]];
    if blocks[h].index != 0 {
      PathEnds(blocks, blocks[h].previousHash);
    }
  }

  /** Adding an importable block keeps every stored branch, and the new block's branch is valid too. */
  lemma ImportKeeps(cfg: Config, env: Env, blocks: Blocks, headless: bool, b: Block)
    requires AllValid(cfg, blocks) && Importable(cfg, env, blocks, headless, b) && b.blockHash != ZERO_HASH
    ensures var after := blocks[b.blockHash := b];
            && AllValid(cfg, after)
            && PathTo(after, b.blockHash) == PathTo(blocks, b.previousHash) + [b]
            && forall h | h in blocks :: PathTo(after, h) == PathTo(blocks, h)
  {
    hide GenesisValid, BlockValid, BranchValid;
    var after := blocks[b.blockHash := b];
    ImportLinks(cfg, env, blocks, headless, b);
    forall h | h in blocks ensures PathTo(after, h) == PathTo(blocks, h) {
      PathUnaffected(blocks, b, h);
    }
    ImportedBranch(cfg, env, PathTo(blocks, b.previousHash), b);
    assert b.index == 0 ==> b.previousHash !in after;
    assert b.index != 0 ==> b.previousHash in blocks;
    assert PathTo(after, b.previousHash) == PathTo(blocks, b.previousHash);
  }

  lemma ImportLinks(cfg: Config, env: Env, blocks: Blocks, headless: bool, b: Block)
    requires AllValid(cfg, blocks) && Importable(cfg, env, blocks, headless, b) && b.blockHash != ZERO_HASH
    ensures Linked(blocks[b.blockHash := b])
    ensures b.index == 0 ==> b.previousHash == ZERO_HASH
  {
    hide BranchValid, GenesisValid, BlockValid;
    if b.index == 0 {
      GenesisIndex(cfg, env, b);
    } else {
      BlockIndex(cfg, env, PathTo(blocks, b.previousHash), b);
      PathEnds(blocks, b.previousHash);
    }
  }

  lemma ImportedBranch(cfg: Config, env: Env, path: seq<Block>, b: Block)
    requires if path == [] then GenesisValid(cfg, env, b) else BranchValid(cfg, path) && BlockValid(cfg, env, path, b)
    ensures BranchValid(cfg, path + [b])
  {
    hide GenesisValid, BlockValid;
    assert (path + [b])[..|path|] == path;
    assert path == [] ==> GenesisAdmitted(cfg, b);
    assert path != [] ==> Admitted(cfg, path, b);
  }

  /** The best head is the only one: two node states with the same blocks agree on it. */
  lemma BestIsUnique(blocks: Blocks, x: Hash, y: Hash)
    requires IsBest(blocks, x) && IsBest(blocks, y)
    ensures x == y
  {
  }

  /** Comparing the newcomer with the incumbent alone keeps the maximum over all compared blocks. */
  lemma SelectionKeepsBest(cfg: Config, env: Env, blocks: Blocks, headless: bool, compared: set<Hash>, best: Hash,
                           b: Block)
    requires AllValid(cfg, blocks) && Importable(cfg, env, blocks, headless, b) && b.blockHash != ZERO_HASH
    requires IsBestAmong(blocks, compared, best)
    ensures var after := blocks[b.blockHash := b];
            && Linked(after) && IsBestAmong(after, compared, best)
            && var switch := Beats(WorkOf(PathTo(after, b.blockHash)), b.blockHash, WorkOf(PathTo(after, best)), best);
            IsBestAmong(after, compared + {b.blockHash}, if switch then b.blockHash else best)
  {
    hide GenesisValid, BlockValid, BranchValid, WorkOf;
    ImportKeeps(cfg, env, blocks, headless, b);
  }

  // ---------------------------------------------------------------- the claims table

  datatype ClaimRow = ClaimRow(providerId: string, sourceNetwork: string, destination: string, amount: int, txId: Hash,
                               claimedAt: int)

  type ClaimTable = map<string, ClaimRow>

  function ClaimRowOf(tx: Transaction): ClaimRow
  {
    ClaimRow(tx.claim.providerId, tx.claim.sourceNetwork, if tx.outputs == [] then "" else tx.outputs[0].recipient,
             Amount(tx.outputs), tx.txId, tx.timestamp)
  }

  /** Rows inserted by a list of transactions, each replacing an earlier row of the same address. */
  function ClaimRows(m: ClaimTable, txs: seq<Transaction>): ClaimTable
  {
    if txs == [] then m
    else
      var before, tx := ClaimRows(m, txs[..|txs| - 1]), txs[|txs| - 1];
      if tx.kind == ClaimKind then before[tx.claim.classicalAddress := ClaimRowOf(tx)] else before
  }

  function ClaimTableOf(path: seq<Block>): ClaimTable
  {
    if path == [] then map[] else ClaimRows(ClaimTableOf(path[..|path| - 1]), path[|path| - 1].transactions)
  }

  lemma {:induction false} ClaimRowsKeys(m: ClaimTable, txs: seq<Transaction>)
    ensures ClaimRows(m, txs).Keys == m.Keys + Elements(ClaimsIn(txs))
  {
    if txs != [] {
      var front, tx := txs[..|txs| - 1], txs[|txs| - 1];
      ClaimRowsKeys(m, front);
      if tx.kind == ClaimKind {
        var claims, address := ClaimsIn(front), tx.claim.classicalAddress;
        assert Elements(claims + [address]) == Elements(claims) + {address};
      } else {
        assert ClaimsIn(txs) == ClaimsIn(front);
      }
    }
  }

  lemma {:induction false} ClaimRowsSize(m: ClaimTable, txs: seq<Transaction>)
    requires Distinct(ClaimsIn(txs)) && m.Keys !! Elements(ClaimsIn(txs))
    ensures |ClaimRows(m, txs)| == |m| + |ClaimsIn(txs)|
  {
    if txs != [] {
      var front, tx := txs[..|txs| - 1], txs[|txs| - 1];
      var claims, address := ClaimsIn(front), tx.claim.classicalAddress;
      if tx.kind == ClaimKind {
        assert ClaimsIn(txs) == claims + [address];
        DistinctSplits(claims, [address]);
        assert address in Elements(ClaimsIn(txs)) && address in [address];
        assert Elements(claims) <= Elements(ClaimsIn(txs));
        ClaimRowsSize(m, front);
        ClaimRowsKeys(m, front);
        AddedKey(ClaimRows(m, front), address, ClaimRowOf(tx));
      } else {
        assert ClaimsIn(txs) == claims;
        ClaimRowsSize(m, front);
      }
    }
  }

  lemma AddedKey(m: ClaimTable, k: string, v: ClaimRow)
    requires k !in m
    ensures |m[k := v]| == |m| + 1
  {
    assert m[k := v].Keys == m.Keys + {k};
    assert |m[k := v].Keys| == |m[k := v]|;
  }

  /** On a branch without repeated claims the table has one row per claim: replacing never happens. */
  lemma {:induction false} ClaimTableSize(path: seq<Block>)
    requires Distinct(ClaimsOf(path))
    ensures ClaimTableOf(path).Keys == Elements(ClaimsOf(path)) && |ClaimTableOf(path)| == |ClaimsOf(path)|
  {
    if path != [] {
      var front, txs := path[..|path| - 1], path[|path| - 1].transactions;
      DistinctSplits(ClaimsOf(front), ClaimsIn(txs));
      ClaimTableSize(front);
      ClaimRowsKeys(ClaimTableOf(front), txs);
      ClaimRowsSize(ClaimTableOf(front), txs);
      assert Elements(ClaimsOf(front) + ClaimsIn(txs)) == Elements(ClaimsOf(front)) + Elements(ClaimsIn(txs));
    }
  }

  /** Every accepted branch has one claims row per minted claim. */
  lemma ReplaceNeverReplaces(cfg: Config, path: seq<Block>)
    requires BranchValid(cfg, path)
    ensures ClaimTableOf(path).Keys == Elements(ClaimsOf(path)) && |ClaimTableOf(path)| == |ClaimsOf(path)|
  {
    ClaimedAtMostOnce(cfg, path);
    ClaimTableSize(path);
  }

  // ---------------------------------------------------------------- loops over transactions and blocks

  /** Removes a transaction's inputs from a view and writes its outputs. */
  method ApplyInPlace(m: Utxos, tx: Transaction) returns (r: Utxos)
    ensures r == ApplyTransaction(m, tx)
  {
    r := m;
    for i := 0 to |tx.inputs|
      invariant r == m - Elements(tx.inputs[..i])
    {
      assert Elements(tx.inputs[..i + 1]) == Elements(tx.inputs[..i]) + {tx.inputs[i]};
      r := r - {tx.inputs[i]};
    }
    assert tx.inputs[..|tx.inputs|] == tx.inputs;
    for i := 0 to |tx.outputs|
      invariant r == WithOutputs(Without(m, tx.inputs), tx.txId, tx.outputs[..i])
    {
      assert tx.outputs[..i + 1][..i] == tx.outputs[..i];
      r := r[Outpoint(tx.txId, i) := tx.outputs[i]];
    }
    assert tx.outputs[..|tx.outputs|] == tx.outputs;
  }

  /** The storage replay of one block. */
  method ApplyBlock(m: Utxos, b: Block) returns (r: Utxos)
    ensures r == ApplyTransactions(m, b.transactions)
  {
    hide ApplyTransaction;
    r := m;
    for i := 0 to |b.transactions|
      invariant r == ApplyTransactions(m, b.transactions[..i])
    {
      assert b.transactions[..i + 1][..i] == b.transactions[..i];
      r := ApplyInPlace(r, b.transactions[i]);
    }
    assert b.transactions[..|b.transactions|] == b.transactions;
  }

  method ReplayUtxos(path: seq<Block>) returns (m: Utxos)
    ensures m == UtxosOf(path)
  {
    m := map[];
    for i := 0 to |path|
      invariant m == UtxosOf(path[..i])
    {
      assert path[..i + 1][..i] == path[..i];
      m := ApplyBlock(m, path[i]);
    }
    assert path[..|path|] == path;
  }

  method ApplyOriginsInPlace(m: Origins, e: Event) returns (r: Origins)
    ensures r == OriginStep(m, e)
  {
    r := m;
    var tx := e.tx;
    for i := 0 to |tx.inputs|
      invariant r == m - Elements(tx.inputs[..i])
    {
      assert Elements(tx.inputs[..i + 1]) == Elements(tx.inputs[..i]) + {tx.inputs[i]};
      r := r - {tx.inputs[i]};
    }
    assert tx.inputs[..|tx.inputs|] == tx.inputs;
    for i := 0 to |tx.outputs|
      invariant r == WithOrigins(m - Elements(tx.inputs), tx.txId, i, e.origin)
    {
      r := r[Outpoint(tx.txId, i) := e.origin];
    }
  }

  method ReplayOrigins(path: seq<Block>) returns (m: Origins)
    ensures m == OriginsOf(path)
  {
    hide OriginStep, OriginOf;
    m := map[];
    for i := 0 to |path|
      invariant m == FoldOrigins(Events(path[..i]))
    {
      var b := path[i];
      ghost var before := Events(path[..i]);
      assert path[..i + 1][..i] == path[..i];
      assert before + BlockEvents(b, 0) == before;
      for k := 0 to |b.transactions|
        invariant m == FoldOrigins(before + BlockEvents(b, k))
      {
        var e := Event(b.transactions[k], OriginOf(b, k));
        ghost var events := before + BlockEvents(b, k + 1);
        assert events[..|events| - 1] == before + BlockEvents(b, k) && events[|events| - 1] == e;
        m := ApplyOriginsInPlace(m, e);
      }
    }
    assert path[..|path|] == path;
  }

  /** Adds the addresses that one block's transactions claim. */
  method CollectFrom(before: set<string>, txs: seq<Transaction>) returns (claims: set<string>)
    ensures claims == before + Elements(ClaimsIn(txs))
  {
    claims := before;
    for k := 0 to |txs|
      invariant claims == before + Elements(ClaimsIn(txs[..k]))
    {
      assert txs[..k + 1][..k] == txs[..k];
      if txs[k].kind == ClaimKind {
        ElementsConcat(ClaimsIn(txs[..k]), [txs[k].claim.classicalAddress]);
        assert Elements([txs[k].claim.classicalAddress]) == {txs[k].claim.classicalAddress};
        claims := claims + {txs[k].claim.classicalAddress};
      } else {
        assert ClaimsIn(txs[..k + 1]) == ClaimsIn(txs[..k]);
      }
    }
    assert txs[..|txs|] == txs;
  }

  method CollectClaims(path: seq<Block>) returns (claims: set<string>)
    ensures claims == Elements(ClaimsOf(path))
  {
    hide ClaimsIn, Elements;
    claims := {};
    assert Elements<string>([]) == {} by { NoElements(); }
    for i := 0 to |path|
      invariant claims == Elements(ClaimsOf(path[..i]))
    {
      assert path[..i + 1][..i] == path[..i];
      ElementsConcat(ClaimsOf(path[..i]), ClaimsIn(path[i].transactions));
      claims := CollectFrom(claims, path[i].transactions);
    }
    assert path[..|path|] == path;
  }

  lemma NoElements()
    ensures Elements<string>([]) == {}
  {
  }

  method SumOutputs(outputs: seq<Coin>) returns (total: int)
    ensures total == Amount(outputs)
  {
    total := 0;
    for i := 0 to |outputs|
      invariant total == Amount(outputs[..i])
    {
      assert outputs[..i + 1][..i] == outputs[..i];
      total := total + outputs[i].amount;
    }
    assert outputs[..|outputs|] == outputs;
  }

  /** Migration value minted on a path within the epoch of a height. */
  method SumEpoch(cfg: Config, path: seq<Block>, height: int) returns (total: int)
    ensures total == EpochMinted(cfg, path, EpochOf(cfg, height))
  {
    var epoch := EpochOf(cfg, height);
    var first := epoch * EpochLength(cfg);
    var last := first + EpochLength(cfg) - 1;
    hide EpochOf, EpochLength;
    total := 0;
    for i := 0 to |path|
      invariant total == EpochMinted(cfg, path[..i], epoch)
    {
      assert path[..i + 1][..i] == path[..i];
      var txs := path[i].transactions;
      if first <= path[i].index <= last {
        ghost var before := total;
        for k := 0 to |txs|
          invariant total == before + MintedIn(txs[..k])
        {
          assert txs[..k + 1][..k] == txs[..k];
          if txs[k].kind == ClaimKind {
            var minted := SumOutputs(txs[k].outputs);
            total := total + minted;
          }
        }
        assert txs[..|txs|] == txs;
      }
    }
    assert path[..|path|] == path;
  }

  method SumSupply(cfg: Config, path: seq<Block>) returns (s: Supply)
    ensures s == SupplyOf(cfg, path)
  {
    s := Supply(0, 0, 0);
    for i := 0 to |path|
      invariant s == SupplyOf(cfg, path[..i])
    {
      assert path[..i + 1][..i] == path[..i];
      var b, txs := path[i], path[i].transactions;
      if b.index == 0 {
        var outputs := 0;
        for k := 0 to |txs|
          invariant outputs == OutputsIn(txs[..k])
        {
          assert txs[..k + 1][..k] == txs[..k];
          var sum := SumOutputs(txs[k].outputs);
          outputs := outputs + sum;
        }
        assert txs[..|txs|] == txs;
        s := s.(genesis := s.genesis + outputs);
      } else if txs != [] {
        var minted := 0;
        for k := 1 to |txs|
          invariant minted == MintedIn(txs[1..][..k - 1])
        {
          assert txs[1..][..k][..k - 1] == txs[1..][..k - 1] && txs[1..][k - 1] == txs[k];
          if txs[k].kind == ClaimKind {
            var sum := SumOutputs(txs[k].outputs);
            minted := minted + sum;
          }
        }
        assert txs[1..][..|txs| - 1] == txs[1..];
        s := s.(subsidy := s.subsidy + Currency.SubsidyAt(cfg.policy, b.index), minted := s.minted + minted);
      }
    }
    assert path[..|path|] == path;
  }

  /** The prechecks of verification: no input twice, every input live. */
  method CheckInputs(inputs: seq<Outpoint>, view: Utxos) returns (ok: bool)
    ensures ok == (Distinct(inputs) && forall o | o in inputs :: o in view)
  {
    var seen: set<Outpoint> := {};
    for i := 0 to |inputs|
      invariant seen == Elements(inputs[..i]) && Distinct(inputs[..i])
      invariant forall o | o in inputs[..i] :: o in view
    {
      if inputs[i] in seen {
        assert inputs[i] in inputs[..i];
        return false;
      }
      if inputs[i] !in view { return false; }
      DistinctExtends(inputs[..i], inputs[i]);
      assert inputs[..i + 1] == inputs[..i] + [inputs[i]];
      seen := seen + {inputs[i]};
    }
    assert inputs[..|inputs|] == inputs;
    return true;
  }

  /** Checks one spending transfer input by input. */
  method CheckSpend(cfg: Config, env: Env, tx: Transaction, view: Utxos, origins: Origins, height: int)
    returns (ok: bool)
    ensures ok == SpendValid(cfg, env, tx, view, origins, height)
  {
    hide Matured, Distinct;
    ok := CheckInputs(tx.inputs, view);
    if !ok { return false; }
    if !env.signaturesVerify(tx, view) { return false; }
    var total := 0;
    for i := 0 to |tx.inputs|
      invariant total == Value(view, tx.inputs[..i])
      invariant forall o | o in tx.inputs[..i] :: Matured(cfg, env, origins, o, height)
    {
      assert tx.inputs[..i + 1][..i] == tx.inputs[..i];
      if !Matured(cfg, env, origins, tx.inputs[i], height) { return false; }
      total := total + view[tx.inputs[i]].amount;
    }
    assert tx.inputs[..|tx.inputs|] == tx.inputs;
    var spent := SumOutputs(tx.outputs);
    return spent + tx.fee <= total;
  }

  method CheckTransaction(cfg: Config, env: Env, tx: Transaction, view: Utxos, origins: Origins,
                          claimed: set<string>, height: int, inputless: bool, maxTimestamp: int)
    returns (ok: bool)
    ensures ok == TransactionValid(cfg, env, tx, view, origins, claimed, height, inputless, maxTimestamp)
  {
    hide SpendValid, ClaimValid;
    if tx.txId != cfg.transactionHash(tx.(txId := 0)) { return false; }
    if tx.chainId != cfg.chainId || tx.kind == OtherKind { return false; }
    if !(0 <= tx.timestamp <= maxTimestamp) || tx.outputs == [] { return false; }
    for i := 0 to |tx.outputs|
      invariant forall c | c in tx.outputs[..i] :: c.amount > 0
    {
      if tx.outputs[i].amount <= 0 { return false; }
    }
    assert tx.outputs[..|tx.outputs|] == tx.outputs;
    if tx.fee < 0 { return false; }
    if tx.kind == ClaimKind { return ClaimValid(env, tx, claimed, height); }
    if tx.inputs == [] { return inputless && tx.fee == 0; }
    ok := CheckSpend(cfg, env, tx, view, origins, height);
  }

  lemma {:induction false} ScanStops(cfg: Config, env: Env, path: seq<Block>, b: Block, k: nat, n: nat)
    requires k <= n <= |b.transactions| && ScanBlock(cfg, env, path, b, k).None?
    ensures ScanBlock(cfg, env, path, b, n).None?
    decreases n
  {
    hide ScanStep;
    if k < n {
      ScanStops(cfg, env, path, b, k, n - 1);
    }
  }

  /** One turn of the validation loop. */
  method ScanOne(cfg: Config, env: Env, path: seq<Block>, b: Block, s: Scan, k: nat, claimedBefore: set<string>)
    returns (r: Option<Scan>)
    requires k < |b.transactions| && claimedBefore == Elements(ClaimsOf(path))
    requires RewardForm(b)
    ensures r == ScanStep(cfg, env, path, b, s, k)
  {
    hide ApplyTransaction, OriginStep, TransactionValid, ClaimsOf, OriginOf;
    var tx := b.transactions[k];
    var ok := CheckTransaction(cfg, env, tx, s.view, s.origins, claimedBefore + s.claimed, b.index,
                               k == 0, b.timestamp);
    if !ok { return None; }
    var next := s;
    if k > 0 {
      next := next.(fees := s.fees + tx.fee);
      if tx.kind == ClaimKind {
        if cfg.epochMintCap > 0 {
          var minted := SumOutputs(tx.outputs);
          next := next.(epochMinted := s.epochMinted + minted);
          if next.epochMinted > cfg.epochMintCap { return None; }
        }
        next := next.(claimed := s.claimed + {tx.claim.classicalAddress});
      } else {
        if exists o | o in tx.inputs :: o in s.spent { return None; }
        next := next.(spent := s.spent + Elements(tx.inputs));
      }
    }
    var view := ApplyInPlace(s.view, tx);
    var origins := ApplyOriginsInPlace(s.origins, Event(tx, OriginOf(b, k)));
    return Some(next.(view := view, origins := origins));
  }

  /** Runs every transaction of a block over the parent's view. */
  method ScanAll(cfg: Config, env: Env, path: seq<Block>, b: Block) returns (r: Option<Scan>)
    requires b.transactions != [] && RewardForm(b)
    ensures r == ScanBlock(cfg, env, path, b, |b.transactions|)
  {
    hide ScanStep, EpochOf, ClaimsOf, UtxosOf, OriginsOf, EpochMinted;
    var view := ReplayUtxos(path);
    var origins := ReplayOrigins(path);
    var claimed := CollectClaims(path);
    var minted := SumEpoch(cfg, path, b.index);
    var s := Scan(view, origins, {}, {}, 0, minted);
    for k := 0 to |b.transactions|
      invariant ScanBlock(cfg, env, path, b, k) == Some(s)
    {
      var next := ScanOne(cfg, env, path, b, s, k, claimed);
      if next.None? {
        ScanStops(cfg, env, path, b, k + 1, |b.transactions|);
        return None;
      }
      s := next.value;
    }
    return Some(s);
  }

  method CheckHeader(cfg: Config, env: Env, b: Block) returns (ok: bool)
    ensures ok == HeaderValid(cfg, env, b)
  {
    if b.chainId != cfg.chainId || b.timestamp < 0 { return false; }
    if b.index != 0 && b.timestamp > env.latestTime { return false; }
    if b.blockHash != cfg.blockHash(b.(blockHash := 0)) { return false; }
    var difficulty: nat := if b.index == 0 then 1 else cfg.difficulty;
    if b.difficulty != difficulty || !ProofOfWork(b.blockHash, difficulty) || b.version < 2 { return false; }
    if b.index >= cfg.stateRootActivation && (b.version < 3 || b.stateRoot.None?) { return false; }
    return b.transactions != [];
  }

  method CheckGenesis(cfg: Config, env: Env, b: Block) returns (ok: bool)
    requires b.index == 0
    ensures ok == GenesisValid(cfg, env, b)
  {
    hide HeaderValid, TransactionValid, SupplyOf, UtxosOf;
    ok := CheckHeader(cfg, env, b);
    if !ok || b.previousHash != ZERO_HASH || b.timestamp != 0 || b.miner != GENESIS_MINER || |b.transactions| != 1 {
      return false;
    }
    var tx := b.transactions[0];
    if tx.kind != TransferKind || tx.inputs != [] || tx.fee != 0 || tx.timestamp != 0 { return false; }
    ok := CheckTransaction(cfg, env, tx, map[], map[], {}, 0, true, b.timestamp);
    if !ok { return false; }
    var after := ReplayUtxos([b]);
    if !RootMatches(cfg, b, after) { return false; }
    var supply := SumSupply(cfg, [b]);
    var live := SumAmounts(after);
    return live == Issued(supply);
  }

  method CheckBlock(cfg: Config, env: Env, path: seq<Block>, b: Block) returns (ok: bool)
    requires b.index != 0 && path != [] && b.previousHash == path[|path| - 1].blockHash
    ensures ok == BlockValid(cfg, env, path, b)
  {
    hide TransactionValid, SupplyOf, UtxosOf, Total, ScanBlock, ProofOfWork, WithinLimits;
    ok := CheckHeader(cfg, env, b);
    if !ok { return false; }
    var parent := path[|path| - 1];
    if b.index != parent.index + 1 || b.timestamp <= parent.timestamp || !RewardForm(b) { return false; }
    var scan := ScanAll(cfg, env, path, b);
    if scan.None? { return false; }
    var s := scan.value;
    var reward := SumOutputs(b.transactions[0].outputs);
    if reward != Currency.SubsidyAt(cfg.policy, b.index) + s.fees || !RootMatches(cfg, b, s.view) { return false; }
    var supply := SumSupply(cfg, path + [b]);
    if !WithinLimits(cfg, supply) { return false; }
    var live := SumAmounts(s.view);
    return live == Issued(supply);
  }

  method CollectRows(path: seq<Block>) returns (rows: ClaimTable)
    ensures rows == ClaimTableOf(path)
  {
    rows := map[];
    for i := 0 to |path|
      invariant rows == ClaimTableOf(path[..i])
    {
      assert path[..i + 1][..i] == path[..i];
      var txs := path[i].transactions;
      ghost var before := rows;
      for k := 0 to |txs|
        invariant rows == ClaimRows(before, txs[..k])
      {
        assert txs[..k + 1][..k] == txs[..k];
        if txs[k].kind == ClaimKind {
          rows := rows[txs[k].claim.classicalAddress := ClaimRowOf(txs[k])];
        }
      }
      assert txs[..|txs|] == txs;
    }
    assert path[..|path|] == path;
  }

  // ---------------------------------------------------------------- the node

  /** Cumulative work of a block to be stored, from its parent's. */
  function WorkOnParent(work: map<Hash, int>, b: Block): int
    requires b.previousHash != ZERO_HASH ==> b.previousHash in work
  {
    (if b.previousHash != ZERO_HASH then work[b.previousHash] else 0) + BlockWork(b.difficulty)
  }

  ghost predicate Weighed(blocks: Blocks, work: map<Hash, int>)
    requires Linked(blocks)
  {
    work.Keys == blocks.Keys && forall h | h in blocks :: work[h] == WorkOf(PathTo(blocks, h))
  }

  lemma StoringKeeps(cfg: Config, env: Env, blocks: Blocks, work: map<Hash, int>, headless: bool, b: Block)
    requires AllValid(cfg, blocks) && Weighed(blocks, work)
    requires Importable(cfg, env, blocks, headless, b) && b.blockHash != ZERO_HASH
    ensures b.previousHash != ZERO_HASH ==> b.previousHash in work
    ensures var after := blocks[b.blockHash := b];
            && AllValid(cfg, after) && Weighed(after, work[b.blockHash := WorkOnParent(work, b)])
            && (forall h | h in blocks :: PathTo(after, h) == PathTo(blocks, h))
            && IsBestAmong(after, {b.blockHash}, b.blockHash)
  {
    hide GenesisValid, BlockValid, BranchValid, WorkOf;
    ImportedHash(cfg, env, blocks, headless, b);
    ImportKeeps(cfg, env, blocks, headless, b);
    ImportLinks(cfg, env, blocks, headless, b);
    WorkGrows(PathTo(blocks, b.previousHash), b);
    EmptyWork();
  }

  lemma StoringKeepsBest(cfg: Config, env: Env, blocks: Blocks, work: map<Hash, int>, best: Hash, compared: set<Hash>,
                         b: Block)
    requires AllValid(cfg, blocks) && Weighed(blocks, work) && IsBestAmong(blocks, compared, best)
    requires Importable(cfg, env, blocks, false, b) && b.blockHash != ZERO_HASH
    requires b.previousHash != ZERO_HASH ==> b.previousHash in work
    ensures var after, w := blocks[b.blockHash := b], work[b.blockHash := WorkOnParent(work, b)];
            && IsBestAmong(after, compared, best) && best in w
            && IsBestAmong(after, compared + {b.blockHash},
                           if Beats(w[b.blockHash], b.blockHash, w[best], best) then b.blockHash else best)
  {
    hide BranchValid, WorkOf, Importable;
    StoringKeeps(cfg, env, blocks, work, false, b);
    SelectionKeepsBest(cfg, env, blocks, false, compared, best, b);
  }

  /** Every spend of a block on a branch passes signature verification against what is live when its turn comes, and
      every claim is admitted. */
  ghost predicate Verified(env: Env, path: seq<Block>, b: Block)
  {
    && (forall k | 0 <= k < |b.transactions| && b.transactions[k].inputs != [] ::
          env.signaturesVerify(b.transactions[k], ApplyTransactions(UtxosOf(path), b.transactions[..k])))
    && forall k | 0 <= k < |b.transactions| && b.transactions[k].kind == ClaimKind ::
         env.claimAdmitted(b.transactions[k], b.index)
  }

  /** Nothing unverified is imported. */
  lemma ImportableIsVerified(cfg: Config, env: Env, blocks: Blocks, headless: bool, b: Block)
    requires Linked(blocks) && Importable(cfg, env, blocks, headless, b)
    ensures Verified(env, PathTo(blocks, b.previousHash), b)
  {
    hide BlockValid, PathTo, UtxosOf, ApplyTransactions, TransactionValid, HeaderValid, SupplyOf, Total;
    if b.index != 0 {
      var path := PathTo(blocks, b.previousHash);
      forall k | 0 <= k < |b.transactions| && b.transactions[k].inputs != []
        ensures env.signaturesVerify(b.transactions[k], ApplyTransactions(UtxosOf(path), b.transactions[..k]))
      {
        AcceptedV1.SpendsVerified(cfg, env, path, b, k);
      }
      forall k | 0 <= k < |b.transactions| && b.transactions[k].kind == ClaimKind
        ensures env.claimAdmitted(b.transactions[k], b.index)
      {
        AcceptedV1.TransactionsAreSound(cfg, env, path, b, k);
      }
    }
  }

  /** The block table by column, the recorded head, and the tables a change of head rebuilds. `compared` tells which
      stored blocks took part in the choice of head: a process that stops right after storing a block skips it. */
  class ChainNode {
    const cfg: Config
    var blocks: Blocks
    var work: map<Hash, int>
    var canonical: set<Hash>
    var best: Option<Hash>
    var utxos: Utxos
    var claims: ClaimTable
    ghost var compared: set<Hash>

    /** Every stored branch is valid and weighed, the head is the best of the compared blocks, and every cached table
        is the replay of its path. */
    ghost predicate Valid()
      reads this
    {
      && StoreValid()
      && compared <= blocks.Keys && (best.None? <==> compared == {})
      && (best.Some? ==> IsBestAmong(blocks, compared, best.value))
      && utxos == UtxosOf(BestPath())
      && claims == ClaimTableOf(BestPath())
      && canonical == (set b | b in BestPath() :: b.blockHash)
    }

    /** Every stored block was compared. */
    ghost predicate Settled()
      reads this
    {
      compared == blocks.Keys
    }

    ghost predicate StoreValid()
      reads this
    {
      AllValid(cfg, blocks) && Weighed(blocks, work)
    }

    ghost function BestPath(): seq<Block>
      requires Linked(blocks)
      reads this
    {
      if best.None? then [] else PathTo(blocks, best.value)
    }

    constructor (cfg: Config)
      ensures Valid() && Settled() && this.cfg == cfg && blocks == map[] && best == None
    {
      this.cfg := cfg;
      blocks, work, canonical, best, utxos, claims, compared := map[], map[], {}, None, map[], map[], {};
    }

    /** Follows parent links from a hash until the root. */
    method PathToRoot(h: Hash) returns (path: seq<Block>)
      requires Linked(blocks)
      ensures path == PathTo(blocks, h)
    {
      path := [];
      var cursor := h;
      while cursor != ZERO_HASH && cursor in blocks
        invariant PathTo(blocks, h) == PathTo(blocks, cursor) + path
        decreases if cursor in blocks then blocks[cursor].index + 1 else 0
      {
        var b := blocks[cursor];
        ghost var front := PathTo(blocks, b.previousHash);
        assert PathTo(blocks, cursor) == front + [b];
        assert front + [b] + path == front + ([b] + path);
        path := [b] + path;
        cursor := b.previousHash;
      }
    }

    method ValidateBlock(env: Env, b: Block) returns (ok: bool)
      requires Valid()
      ensures ok == Importable(cfg, env, blocks, best.None?, b)
      ensures ok ==> Verified(env, PathTo(blocks, b.previousHash), b)
    {
      hide GenesisValid, BlockValid, BranchValid, Verified;
      if b.blockHash in blocks { return false; }
      if b.index == 0 {
        if best.Some? { return false; }
        ok := CheckGenesis(cfg, env, b);
      } else {
        if b.previousHash !in blocks { return false; }
        var path := PathToRoot(b.previousHash);
        PathEnds(blocks, b.previousHash);
        ok := CheckBlock(cfg, env, path, b);
      }
      if ok { ImportableIsVerified(cfg, env, blocks, best.None?, b); }
    }

    /** Inserts a validated block with its cumulative work. */
    method StoreBlock(env: Env, b: Block)
      requires Valid() && Importable(cfg, env, blocks, best.None?, b) && b.blockHash != ZERO_HASH
      modifies this`blocks, this`work
      ensures StoreValid() && blocks == old(blocks)[b.blockHash := b]
      ensures forall h | h in old(blocks) :: PathTo(blocks, h) == old(PathTo(blocks, h))
      ensures best.Some? ==> IsBestAmong(blocks, compared, best.value)
                             && IsBestAmong(blocks, compared + {b.blockHash},
                                            if Beats(work[b.blockHash], b.blockHash, work[best.value], best.value)
                                            then b.blockHash else best.value)
      ensures best.None? ==> IsBestAmong(blocks, {b.blockHash}, b.blockHash)
    {
      hide IsBestAmong, AllValid, Importable, PathTo, WorkOf, UtxosOf, ClaimTableOf;
      StoringKeeps(cfg, env, blocks, work, best.None?, b);
      if best.Some? { StoringKeepsBest(cfg, env, blocks, work, best.value, compared, b); }
      var parentWork := 0;
      if b.previousHash != ZERO_HASH { parentWork := work[b.previousHash]; }
      work := work[b.blockHash := parentWork + BlockWork(b.difficulty)];
      blocks := blocks[b.blockHash := b];
    }

    /** Makes a stored block the head and rebuilds every cached table from its path. */
    method ApplyBestChain(head: Hash)
      requires StoreValid() && IsBestAmong(blocks, compared, head)
      modifies this`canonical, this`best, this`utxos, this`claims
      ensures Valid() && best == Some(head)
    {
      hide AllValid, UtxosOf, ClaimTableOf, WorkOf;
      assert Linked(blocks);
      var path := PathToRoot(head);
      canonical := set b | b in path :: b.blockHash;
      utxos := ReplayUtxos(path);
      claims := CollectRows(path);
      best := Some(head);
    }

    /** Compares a stored block with the head and switches to it when it beats it. */
    method SelectBestChain(candidate: Hash)
      requires StoreValid() && candidate in blocks
      requires compared <= blocks.Keys && (best.None? <==> compared == {})
      requires best.None? ==> IsBestAmong(blocks, {candidate}, candidate)
      requires best.Some? ==> best.value in blocks
                              && IsBestAmong(blocks, compared + {candidate},
                                             if Beats(work[candidate], candidate, work[best.value], best.value)
                                             then candidate else best.value)
      requires utxos == UtxosOf(BestPath()) && claims == ClaimTableOf(BestPath())
      requires canonical == (set b | b in BestPath() :: b.blockHash)
      modifies this`canonical, this`best, this`utxos, this`claims, this`compared
      ensures Valid() && compared == old(compared) + {candidate}
    {
      hide AllValid, UtxosOf, ClaimTableOf, WorkOf;
      compared := compared + {candidate};
      if best.None? {
        assert compared == {candidate};
        ApplyBestChain(candidate);
      } else if work[candidate] > work[best.value] || (work[candidate] == work[best.value] && candidate > best.value) {
        ApplyBestChain(candidate);
      }
    }

    /** Validates a block, stores it and lets it be compared with the head; a refused block changes nothing. `stops`
        says that the process stops between storing and comparing. */
    method ImportBlock(env: Env, b: Block, stops: bool) returns (r: Result<bool>)
      requires Valid() && b.blockHash != ZERO_HASH
      modifies this
      ensures Valid()
      ensures r.Ok? == old(Importable(cfg, env, blocks, best.None?, b))
      ensures r.Ok? ==> r.value == !stops && blocks == old(blocks)[b.blockHash := b]
                        && compared == old(compared) + if stops then {} else {b.blockHash}
      ensures r.Ok? ==> Verified(env, PathTo(old(blocks), b.previousHash), b)
      ensures r.Ok? && stops ==>
                best == old(best) && utxos == old(utxos) && claims == old(claims) && canonical == old(canonical)
      ensures old(Settled()) && !(r.Ok? && stops) ==> Settled()
      ensures r.Rejected? ==> blocks == old(blocks) && work == old(work) && best == old(best) && utxos == old(utxos)
                              && claims == old(claims) && canonical == old(canonical) && compared == old(compared)
    {
      hide GenesisValid, BlockValid, BranchValid, WorkOf, UtxosOf, ClaimTableOf, Verified, PathTo, Linked, Weighed;
      var valid := ValidateBlock(env, b);
      if !valid { return Rejected("block is refused"); }
      StoreBlock(env, b);
      if stops { return Ok(false); }
      SelectBestChain(b.blockHash);
      return Ok(true);
    }
  }

  lemma EmptyWork()
    ensures WorkOf([]) == 0
  {
  }

  lemma WorkGrows(path: seq<Block>, b: Block)
    ensures WorkOf(path + [b]) == WorkOf(path) + BlockWork(b.difficulty)
  {
    assert (path + [b])[..|path|] == path;
  }

  lemma ImportedHash(cfg: Config, env: Env, blocks: Blocks, headless: bool, b: Block)
    requires Linked(blocks) && Importable(cfg, env, blocks, headless, b)
    ensures b.blockHash == cfg.blockHash(b.(blockHash := 0))
    ensures b.index == 0 <==> b.previousHash == ZERO_HASH
  {
    hide ScanBlock, TransactionValid, UtxosOf, SupplyOf, Total, PathTo;
    if b.index == 0 { GenesisIndex(cfg, env, b); }
  }

  /** The head is the maximum over all stored blocks exactly when it beats every one that was stored but never
      compared. */
  lemma HeadIsMaximumIff(node: ChainNode)
    requires node.Valid() && node.best.Some?
    ensures var best := node.best.value;
            && best in node.blocks
            && (IsBest(node.blocks, best)
                <==> forall h | h in node.blocks && h !in node.compared ::
                       Beats(WorkOf(PathTo(node.blocks, best)), best, WorkOf(PathTo(node.blocks, h)), h))
  {
    hide BranchValid, UtxosOf, ClaimTableOf, WorkOf;
  }

  /** An import that stops before the comparison keeps the head the maximum over all stored blocks exactly when the
      comparison would not have switched. */
  lemma StoppedImportKeepsMaximumIff(node: ChainNode, env: Env, b: Block)
    requires node.Valid() && node.best.Some? && IsBest(node.blocks, node.best.value)
    requires Importable(node.cfg, env, node.blocks, false, b) && b.blockHash != ZERO_HASH
    ensures b.previousHash != ZERO_HASH ==> b.previousHash in node.work
    ensures node.best.value in node.work
    ensures IsBest(node.blocks[b.blockHash := b], node.best.value)
            <==> !Beats(WorkOnParent(node.work, b), b.blockHash, node.work[node.best.value], node.best.value)
  {
    hide BranchValid, WorkOf, Importable, UtxosOf, ClaimTableOf;
    var best, after := node.best.value, node.blocks[b.blockHash := b];
    StoringKeeps(node.cfg, env, node.blocks, node.work, false, b);
    StoringKeepsBest(node.cfg, env, node.blocks, node.work, best, node.blocks.Keys, b);
    assert b.blockHash !in node.blocks by { NewHash(node.cfg, env, node.blocks, b); }
    assert after.Keys == node.blocks.Keys + {b.blockHash};
    var w := WorkOnParent(node.work, b);
    assert WorkOf(PathTo(after, b.blockHash)) == w && WorkOf(PathTo(after, best)) == node.work[best];
  }

  lemma NewHash(cfg: Config, env: Env, blocks: Blocks, b: Block)
    requires Linked(blocks) && Importable(cfg, env, blocks, false, b)
    ensures b.blockHash !in blocks
  {
  }

  lemma {:induction false} AncestorsWeighLess(blocks: Blocks, h: Hash, x: Block)
    requires Linked(blocks) && h in blocks && x in PathTo(blocks, h) && x.blockHash != h
    ensures x.blockHash in blocks && WorkOf(PathTo(blocks, x.blockHash)) < WorkOf(PathTo(blocks, h))
    decreases blocks[h].index
  {
    var p := blocks[h].previousHash;
    assert x in PathTo(blocks, p);
    WorkGrows(PathTo(blocks, p), blocks[h]);
    assert p in blocks;
    if x.blockHash != p { AncestorsWeighLess(blocks, p, x); }
  }

  /** A skipped block no longer keeps the head from being the maximum once a descendant of it has been compared. */
  lemma DescendantRepairs(node: ChainNode, skipped: Block, h: Hash)
    requires node.Valid() && node.best.Some? && h in node.compared
    requires skipped in PathTo(node.blocks, h) && skipped.blockHash != h && skipped.blockHash != node.best.value
    ensures skipped.blockHash in node.blocks && node.best.value in node.blocks
    ensures Beats(WorkOf(PathTo(node.blocks, node.best.value)), node.best.value,
                  WorkOf(PathTo(node.blocks, skipped.blockHash)), skipped.blockHash)
  {
    hide BranchValid, UtxosOf, ClaimTableOf, WorkOf;
    AncestorsWeighLess(node.blocks, h, skipped);
  }

  /** Whatever order their blocks arrived in, nodes that store the same blocks, all of them compared, have the same
      head and tables. */
  lemma SameBlocksSameTables(x: ChainNode, y: ChainNode)
    requires x.Valid() && x.Settled() && y.Valid() && y.Settled() && x.blocks == y.blocks
    ensures x.best == y.best && x.work == y.work && x.canonical == y.canonical
    ensures x.utxos == y.utxos && x.claims == y.claims
  {
    hide BranchValid, UtxosOf, ClaimTableOf, WorkOf;
    assert forall h | h in x.work :: h in x.blocks && x.work[h] == y.work[h];
    if x.best.Some? {
      BestIsUnique(x.blocks, x.best.value, y.best.value);
    }
  }

  /** The cached tables of every reachable node are reconciled: the live total is the issued supply, within the caps
      once the head is past the genesis, and the claims table has one row for each minted claim of the branch. */
  lemma CachedTablesReconciled(node: ChainNode)
    requires node.Valid() && node.best.Some?
    ensures Total(node.utxos) == Issued(SupplyOf(node.cfg, node.BestPath()))
    ensures |node.BestPath()| > 1 ==> WithinLimits(node.cfg, SupplyOf(node.cfg, node.BestPath()))
    ensures |node.claims| == |ClaimsOf(node.BestPath())| && node.claims.Keys == Elements(ClaimsOf(node.BestPath()))
  {
    hide BranchValid, UtxosOf, ClaimTableOf, WorkOf, Total, SupplyOf, Issued, WithinLimits;
    var path := node.BestPath();
    BranchReconciled(node.cfg, path);
    ReplaceNeverReplaces(node.cfg, path);
    assert path[..|path|] == path;
    if |path| > 1 { SupplyWithinCaps(node.cfg, path, |path|); }
  }

  lemma HeaderDifficulty(cfg: Config, env: Env, path: seq<Block>, b: Block)
    requires if path == [] then GenesisValid(cfg, env, b) else BlockValid(cfg, env, path, b)
    ensures BlockWork(b.difficulty) == if path == [] then 16 else Pow16(cfg.difficulty)
  {
    hide ScanBlock, TransactionValid, UtxosOf, SupplyOf, Total, ProofOfWork;
    assert path == [] ==> b.difficulty == 1 && Pow16(1) == 16 * Pow16(0);
  }

  /** Under the configured difficulty the work of an accepted branch grows by the same amount with every block. */
  lemma {:induction false} WorkOfBranch(cfg: Config, path: seq<Block>)
    requires BranchValid(cfg, path)
    ensures WorkOf(path) == 16 + (|path| - 1) * Pow16(cfg.difficulty)
  {
    hide GenesisValid, BlockValid, BlockWork;
    var front, b := path[..|path| - 1], path[|path| - 1];
    if |path| == 1 {
      var env :| GenesisValid(cfg, env, b);
      HeaderDifficulty(cfg, env, [], b);
      assert front == [];
      assert WorkOf(front) == 0;
    } else {
      WorkOfBranch(cfg, front);
      var env :| BlockValid(cfg, env, front, b);
      HeaderDifficulty(cfg, env, front, b);
      assert (|path| - 1) * Pow16(cfg.difficulty) == (|front| - 1) * Pow16(cfg.difficulty) + Pow16(cfg.difficulty);
    }
  }

  lemma MoreBlocksMoreWork(cfg: Config, a: nat, b: nat)
    ensures a < b ==> 16 + a * Pow16(cfg.difficulty) < 16 + b * Pow16(cfg.difficulty)
  {
    Numerals.ProductGrows(a, b, Pow16(cfg.difficulty));
  }

  /** The head of every reachable node is the highest compared block, and of the highest ones that with the greatest
      hash. */
  lemma HeadIsHighest(node: ChainNode, h: Hash)
    requires node.Valid() && node.best.Some? && h in node.compared
    ensures h in node.blocks && node.best.value in node.blocks
    ensures node.blocks[h].index <= node.blocks[node.best.value].index
    ensures node.blocks[h].index == node.blocks[node.best.value].index ==> h <= node.best.value
  {
    hide BranchValid, UtxosOf, ClaimTableOf, WorkOf, PathTo;
    var head := node.best.value;
    WorkAt(node.cfg, node.blocks, h);
    WorkAt(node.cfg, node.blocks, head);
    MoreBlocksMoreWork(node.cfg, node.blocks[head].index, node.blocks[h].index);
  }

  lemma WorkAt(cfg: Config, blocks: Blocks, h: Hash)
    requires AllValid(cfg, blocks) && h in blocks
    ensures blocks[h].index >= 0 && WorkOf(PathTo(blocks, h)) == 16 + blocks[h].index * Pow16(cfg.difficulty)
  {
    hide BranchValid, WorkOf;
    PathEnds(blocks, h);
    WorkOfBranch(cfg, PathTo(blocks, h));
  }
}
