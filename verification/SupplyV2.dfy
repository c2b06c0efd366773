/** What every version 2 branch does to the money supply and to outpoints. */
module SupplyV2 {
  import opened Results
  import opened Collections
  import opened Coins
  import opened ProtocolV2
  import opened BlockTree
  import opened ConsensusV2

  function GenesisUtxos(net: Network): Utxos
  {
    GenesisState(net, |net.allocations|)
  }

  function AllocationIds(net: Network): (s: seq<Hash>)
    ensures |s| == |net.allocations|
  {
    seq(|net.allocations|, i requires 0 <= i < |net.allocations| => AllocationId(net, i))
  }

  function Fees(txs: seq<Transfer>): int
  {
    if txs == [] then 0 else Fees(txs[..|txs| - 1]) + txs[|txs| - 1].fee
  }

  /** All transfers of a list of blocks, in order. */
  function Flat(blocks: seq<Block>): seq<Transfer>
  {
    if blocks == [] then [] else Flat(blocks[..|blocks| - 1]) + blocks[|blocks| - 1].transactions
  }

  // ---------------------------------------------------------------- a branch is one run of transfers

  lemma FitsShift(net: Network, ids: seq<Hash>, l: Ledger, tx: Transfer)
    ensures Fits(net, Elements(ids), l, tx) == Fits(net, {}, Ledger(l.utxos, ids + l.ids), tx)
    ensures Extended(Ledger(l.utxos, ids + l.ids), tx) == Ledger(Applied(l.utxos, tx), ids + Extended(l, tx).ids)
  {
    assert (ids + l.ids) + [tx.txId] == ids + (l.ids + [tx.txId]);
  }

  lemma RunSnoc(net: Network, known: set<Hash>, utxos: Utxos, txs: seq<Transfer>, tx: Transfer)
    ensures RunTransfers(net, known, utxos, txs + [tx])
            == match RunTransfers(net, known, utxos, txs)
               case None => None
               case Some(l) => if Fits(net, known, l, tx) then Some(Extended(l, tx)) else None
  {
    assert (txs + [tx])[..|txs|] == txs;
  }

  lemma {:induction false} RunConcat(net: Network, utxos: Utxos, a: seq<Transfer>, b: seq<Transfer>)
    requires RunTransfers(net, {}, utxos, a).Some?
    requires var l := RunTransfers(net, {}, utxos, a).value;
             RunTransfers(net, Elements(l.ids), l.utxos, b).Some?
    ensures var l := RunTransfers(net, {}, utxos, a).value;
            var m := RunTransfers(net, Elements(l.ids), l.utxos, b).value;
            RunTransfers(net, {}, utxos, a + b) == Some(Ledger(m.utxos, l.ids + m.ids))
  {
    hide TransferValid, TransferApplies, Applied;
    var l := RunTransfers(net, {}, utxos, a).value;
    if b == [] {
      assert a + b == a && l.ids + [] == l.ids;
    } else {
      var front, tx := b[..|b| - 1], b[|b| - 1];
      assert front + [tx] == b && (a + front) + [tx] == a + b;
      RunSnoc(net, Elements(l.ids), l.utxos, front, tx);
      RunSnoc(net, {}, utxos, a + front, tx);
      RunConcat(net, utxos, a, front);
      FitsShift(net, l.ids, RunTransfers(net, Elements(l.ids), l.utxos, front).value, tx);
    }
  }

  /** The replay of a branch is one uninterrupted run of its transfers from the genesis state. */
  lemma {:induction false} ReplayIsOneRun(net: Network, g: Block, blocks: seq<Block>)
    requires net.difficultyBits >= 0
    requires Replay(EngineRule(net, g), blocks).Some?
    ensures var e := Replay(EngineRule(net, g), blocks).value;
            var l := RunTransfers(net, {}, GenesisUtxos(net), Flat(blocks));
            l.Some? && l.value.utxos == e.utxos && Elements(l.value.ids) == e.txIds
  {
    if blocks != [] {
      var front, b := blocks[..|blocks| - 1], blocks[|blocks| - 1];
      ReplayIsOneRun(net, g, front);
      RunConcat(net, GenesisUtxos(net), Flat(front), b.transactions);
    }
  }

  /** So is every stored entry of every grown tree. */
  lemma StoredEntryIsOneRun(net: Network, g: Block, t: Tree<Entry>, h: Hash)
    requires GenesisValid(net, g) && Lawful(EngineRule(net, g))
    requires Grown(EngineRule(net, g), t) && h in t.entries
    ensures var l := RunTransfers(net, {}, GenesisUtxos(net), Flat(Branch(EngineRule(net, g), t, h)));
            l.Some? && l.value.utxos == t.entries[h].utxos && Elements(l.value.ids) == t.entries[h].txIds
  {
    EntryIsReplay(EngineRule(net, g), t, h);
    ReplayIsOneRun(net, g, Branch(EngineRule(net, g), t, h));
  }

  // ---------------------------------------------------------------- supply

  lemma AppliedConserves(utxos: Utxos, tx: Transfer, owners: seq<string>)
    requires Positive(utxos) && Distinct(Sources(tx)) && TransferApplies(tx, owners, utxos)
    requires forall c | c in tx.outputs :: c.amount > 0
    ensures Positive(Applied(utxos, tx))
    ensures Total(Applied(utxos, tx)) == Total(utxos) - tx.fee
  {
    var kept := Without(utxos, Sources(tx));
    TotalWithout(utxos, Sources(tx));
    TotalWithOutputs(kept, tx.txId, tx.outputs);
    OverwrittenNothing(kept, tx.txId, tx.outputs);
    WithOutputsContent(kept, tx.txId, tx.outputs);
  }

  /** Every transfer burns exactly its fee. */
  lemma {:induction false} RunBurnsFees(net: Network, utxos: Utxos, txs: seq<Transfer>)
    requires Positive(utxos) && RunTransfers(net, {}, utxos, txs).Some?
    ensures var l := RunTransfers(net, {}, utxos, txs).value;
            Positive(l.utxos) && Total(l.utxos) == Total(utxos) - Fees(txs) && Fees(txs) >= 0
  {
    if txs != [] {
      var front, tx := txs[..|txs| - 1], txs[|txs| - 1];
      RunBurnsFees(net, utxos, front);
      AppliedConserves(RunTransfers(net, {}, utxos, front).value.utxos, tx, Owners(net, tx));
    }
  }

  predicate AmountsPositive(net: Network)
  {
    forall i | 0 <= i < |net.allocations| :: net.allocations[i].amount > 0
  }

  lemma ValidAmountsPositive(net: Network)
    requires AllocationsValid(net)
    ensures AmountsPositive(net)
  {
    forall i | 0 <= i < |net.allocations|
      ensures net.allocations[i].amount > 0
    {
      assert AllocationValid(net, i);
    }
  }

  lemma {:induction false} GenesisContent(net: Network, n: nat)
    requires n <= |net.allocations| && AmountsPositive(net)
    ensures Positive(GenesisState(net, n))
    ensures forall o :: o in GenesisState(net, n) <==> o.index == 0 && o.txId in AllocationIds(net)[..n]
  {
    if n > 0 {
      GenesisContent(net, n - 1);
      assert AllocationIds(net)[..n] == AllocationIds(net)[..n - 1] + [AllocationId(net, n - 1)];
    }
  }

  lemma DistinctGrows<T>(s: seq<T>, n: nat)
    requires 0 < n <= |s|
    ensures Distinct(s[..n]) <==> Distinct(s[..n - 1]) && s[n - 1] !in s[..n - 1]
  {
    if s[n - 1] in s[..n - 1] {
      var k :| 0 <= k < n - 1 && s[..n - 1][k] == s[n - 1];
      assert s[..n][k] == s[..n][n - 1];
    }
    if Distinct(s[..n]) {
      assert forall i | 0 <= i < n - 1 :: s[..n - 1][i] == s[..n][i];
    }
  }

  lemma {:induction false} GenesisTotal(net: Network, n: nat)
    requires n <= |net.allocations| && AmountsPositive(net)
    ensures Total(GenesisState(net, n)) <= AllocationSum(net.allocations[..n])
    ensures Total(GenesisState(net, n)) == AllocationSum(net.allocations[..n]) <==> Distinct(AllocationIds(net)[..n])
  {
    if n > 0 {
      GenesisTotal(net, n - 1);
      GenesisContent(net, n - 1);
      var a := net.allocations[n - 1];
      TotalUpdate(GenesisState(net, n - 1), Outpoint(AllocationId(net, n - 1), 0), Coin(a.recipient, a.amount));
      assert net.allocations[..n][..n - 1] == net.allocations[..n - 1];
      DistinctGrows(AllocationIds(net), n);
    }
  }

  lemma GenesisSupply(net: Network)
    requires AllocationsValid(net)
    ensures Positive(GenesisUtxos(net)) && AmountsPositive(net)
    ensures Total(GenesisUtxos(net)) <= net.maxSupply
    ensures Total(GenesisUtxos(net)) == net.maxSupply <==> Distinct(AllocationIds(net))
  {
    ValidAmountsPositive(net);
    GenesisContent(net, |net.allocations|);
    GenesisTotal(net, |net.allocations|);
    assert AllocationIds(net)[..|net.allocations|] == AllocationIds(net);
    assert net.allocations[..|net.allocations|] == net.allocations;
  }

  // ---------------------------------------------------------------- colliding IDs

  /** The preimages of two allocations of the manifest have one hash. */
  predicate AllocationsCollide(net: Network)
  {
    exists i, j | 0 <= i < j < |net.allocations| :: Collide(net, AllocationPreimage(net, i), AllocationPreimage(net, j))
  }

  /** The preimages of an allocation and of this transfer have one hash. */
  predicate AllocationMeets(net: Network, tx: Transfer)
  {
    exists i | 0 <= i < |net.allocations| :: Collide(net, AllocationPreimage(net, i), OfTransfer(Body(tx)))
  }

  /** Preimages carry the allocation index and the domain, so IDs repeat only by such a collision. */
  lemma RepeatedIdsCollide(net: Network)
    ensures Distinct(AllocationIds(net)) <==> !AllocationsCollide(net)
    ensures forall tx: Transfer | tx.txId == net.hash(OfTransfer(Body(tx))) ::
              tx.txId in AllocationIds(net) <==> AllocationMeets(net, tx)
  {
    var ids := AllocationIds(net);
    forall i, j | 0 <= i < j < |ids|
      ensures ids[i] == ids[j] <==> Collide(net, AllocationPreimage(net, i), AllocationPreimage(net, j))
    {
    }
    forall tx: Transfer | tx.txId == net.hash(OfTransfer(Body(tx)))
      ensures tx.txId in ids <==> AllocationMeets(net, tx)
    {
      forall i | 0 <= i < |ids|
        ensures ids[i] == tx.txId <==> Collide(net, AllocationPreimage(net, i), OfTransfer(Body(tx)))
      {
      }
    }
  }

  /** On every stored branch the live total is the maximum supply less the fees burned on it, unless the preimages of
      two allocations of the manifest collide; then, and only then, it is smaller. */
  lemma BranchSupply(net: Network, g: Block, t: Tree<Entry>, h: Hash)
    requires GenesisValid(net, g) && Lawful(EngineRule(net, g))
    requires Grown(EngineRule(net, g), t) && h in t.entries
    ensures var burned := Fees(Flat(Branch(EngineRule(net, g), t, h)));
            && Total(t.entries[h].utxos) <= net.maxSupply - burned
            && (Total(t.entries[h].utxos) == net.maxSupply - burned <==> !AllocationsCollide(net))
  {
    StoredEntryIsOneRun(net, g, t, h);
    GenesisSupply(net);
    RepeatedIdsCollide(net);
    RunBurnsFees(net, GenesisUtxos(net), Flat(Branch(EngineRule(net, g), t, h)));
  }

  /** Neither the supply check after a block nor the input-sum overflow check can fire on a branch: whatever transfers
      have run, and however far the inputs of a further transfer are distinct and live. */
  lemma SupplyAndOverflowChecksNeverFire(net: Network, g: Block, txs: seq<Transfer>, tx: Transfer)
    requires GenesisValid(net, g)
    requires RunTransfers(net, {}, GenesisUtxos(net), txs).Some?
    ensures var l := RunTransfers(net, {}, GenesisUtxos(net), txs).value;
            && Total(l.utxos) <= net.maxSupply
            && forall k | 0 <= k <= |tx.inputs| && Distinct(Sources(tx)[..k])
                          && (forall o | o in Sources(tx)[..k] :: o in l.utxos) ::
                 Value(l.utxos, Sources(tx)[..k]) <= MAX_I64
  {
    hide RunTransfers;
    GenesisSupply(net);
    RunBurnsFees(net, GenesisUtxos(net), txs);
    var l := RunTransfers(net, {}, GenesisUtxos(net), txs).value;
    forall k | 0 <= k <= |tx.inputs| && Distinct(Sources(tx)[..k]) && (forall o | o in Sources(tx)[..k] :: o in l.utxos)
      ensures Value(l.utxos, Sources(tx)[..k]) <= MAX_I64
    {
      ValueWithinTotal(l.utxos, Sources(tx)[..k]);
    }
  }

  // ---------------------------------------------------------------- outpoints

  function CreatedBy(tx: Transfer): (s: seq<Outpoint>)
    ensures |s| == |tx.outputs|
  {
    seq(|tx.outputs|, i => Outpoint(tx.txId, i))
  }

  /** Every outpoint created up to the end of a run, the allocations first. */
  function Created(net: Network, txs: seq<Transfer>): seq<Outpoint>
  {
    if txs == [] then seq(|net.allocations|, i requires 0 <= i < |net.allocations| => Outpoint(AllocationId(net, i), 0))
    else Created(net, txs[..|txs| - 1]) + CreatedBy(txs[|txs| - 1])
  }

  function Spent(txs: seq<Transfer>): seq<Outpoint>
  {
    if txs == [] then [] else Spent(txs[..|txs| - 1]) + Sources(txs[|txs| - 1])
  }

  ghost predicate History(net: Network, txs: seq<Transfer>, l: Ledger)
  {
    && Distinct(Created(net, txs)) && Distinct(Spent(txs))
    && l.utxos.Keys == Elements(Created(net, txs)) - Elements(Spent(txs))
    && Elements(Spent(txs)) <= Elements(Created(net, txs))
    && forall o | o in Created(net, txs) :: o.txId in AllocationIds(net) || o.txId in l.ids
  }

  lemma CreatedByContent(tx: Transfer)
    ensures Distinct(CreatedBy(tx))
    ensures forall o :: o in Elements(CreatedBy(tx)) <==> o.txId == tx.txId && 0 <= o.index < |tx.outputs|
  {
    forall o: Outpoint | o.txId == tx.txId && 0 <= o.index < |tx.outputs|
      ensures o in CreatedBy(tx)
    {
      assert CreatedBy(tx)[o.index] == o;
    }
  }

  lemma AppliedKeys(utxos: Utxos, tx: Transfer)
    ensures Applied(utxos, tx).Keys == utxos.Keys - Elements(Sources(tx)) + Elements(CreatedBy(tx))
  {
    WithOutputsContent(Without(utxos, Sources(tx)), tx.txId, tx.outputs);
    CreatedByContent(tx);
  }

  lemma SourcesLive(tx: Transfer, owners: seq<string>, utxos: Utxos)
    requires InputsLive(tx, owners, utxos)
    ensures Elements(Sources(tx)) <= utxos.Keys
  {
  }

  lemma HistoryStep(net: Network, txs: seq<Transfer>, l: Ledger, tx: Transfer)
    requires History(net, txs, l) && tx.txId !in l.ids && tx.txId !in AllocationIds(net)
    requires Distinct(Sources(tx)) && Elements(Sources(tx)) <= l.utxos.Keys
    ensures History(net, txs + [tx], Extended(l, tx))
  {
    assert (txs + [tx])[..|txs|] == txs;
    var made, used := Created(net, txs), Spent(txs);
    AppliedKeys(l.utxos, tx);
    CreatedByContent(tx);
    assert Elements(CreatedBy(tx)) !! Elements(made);
    DistinctConcat(used, Sources(tx));
    DistinctConcat(made, CreatedBy(tx));
    ElementsConcat(made, CreatedBy(tx));
    ElementsConcat(used, Sources(tx));
  }

  lemma GenesisHistory(net: Network)
    requires AmountsPositive(net) && Distinct(AllocationIds(net))
    ensures History(net, [], Ledger(GenesisUtxos(net), []))
  {
    GenesisContent(net, |net.allocations|);
    var ids, made := AllocationIds(net), Created(net, []);
    assert ids[..|net.allocations|] == ids;
    assert forall i | 0 <= i < |ids| :: made[i] == Outpoint(ids[i], 0);
    forall o
      ensures o in made <==> o.index == 0 && o.txId in ids
    {
      if o.index == 0 && o.txId in ids {
        var i :| 0 <= i < |ids| && ids[i] == o.txId;
        assert made[i] == o;
      }
    }
  }

  lemma FitsMeans(net: Network, l: Ledger, tx: Transfer)
    requires Fits(net, {}, l, tx)
    ensures tx.txId !in l.ids && Distinct(Sources(tx)) && Elements(Sources(tx)) <= l.utxos.Keys
  {
    SourcesLive(tx, Owners(net, tx), l.utxos);
  }

  lemma {:induction false} FreshIdsHistory(net: Network, txs: seq<Transfer>)
    requires RunTransfers(net, {}, GenesisUtxos(net), txs).Some?
    requires AmountsPositive(net)
    requires Distinct(AllocationIds(net))
    requires forall tx | tx in txs :: tx.txId !in AllocationIds(net)
    ensures History(net, txs, RunTransfers(net, {}, GenesisUtxos(net), txs).value)
  {
    hide History, Fits, Extended, Distinct, GenesisUtxos, AmountsPositive;
    if txs == [] {
      GenesisHistory(net);
    } else {
      var front, tx := txs[..|txs| - 1], txs[|txs| - 1];
      FreshIdsHistory(net, front);
      var l := RunTransfers(net, {}, GenesisUtxos(net), front).value;
      FitsMeans(net, l, tx);
      HistoryStep(net, front, l, tx);
      assert front + [tx] == txs;
    }
  }

  lemma {:induction false} AllocationsCreatedFirst(net: Network, txs: seq<Transfer>)
    ensures Created(net, []) <= Created(net, txs)
  {
    if txs != [] { AllocationsCreatedFirst(net, txs[..|txs| - 1]); }
  }

  /** Where a run records the first output of one of its transfers. */
  lemma {:induction false} CreatedAt(net: Network, txs: seq<Transfer>, k: nat) returns (p: nat)
    requires k < |txs| && txs[k].outputs != []
    ensures |net.allocations| <= p < |Created(net, txs)| && Created(net, txs)[p] == Outpoint(txs[k].txId, 0)
  {
    var front := txs[..|txs| - 1];
    AllocationsCreatedFirst(net, front);
    if k < |front| {
      p := CreatedAt(net, front, k);
    } else {
      p := |Created(net, front)|;
      assert CreatedBy(txs[k])[0] == Outpoint(txs[k].txId, 0);
    }
  }

  lemma CreatedOnceNeedsFreshIds(net: Network, txs: seq<Transfer>)
    requires Distinct(Created(net, txs)) && forall tx | tx in txs :: tx.outputs != []
    ensures Distinct(AllocationIds(net)) && forall tx | tx in txs :: tx.txId !in AllocationIds(net)
  {
    hide Created;
    var ids, made := AllocationIds(net), Created(net, txs);
    AllocationsCreatedFirst(net, txs);
    AllocationOutpoints(net);
    forall i | 0 <= i < |ids| ensures i < |made| && made[i] == Outpoint(ids[i], 0) {
      assert made[i] == Created(net, [])[i];
    }
    forall i, j | 0 <= i < j < |ids| ensures ids[i] != ids[j] {
      assert made[i] != made[j];
    }
    forall k, i | 0 <= k < |txs| && 0 <= i < |ids| ensures txs[k].txId != ids[i] {
      var p := CreatedAt(net, txs, k);
      assert made[i] != made[p];
    }
  }

  lemma AllocationOutpoints(net: Network)
    ensures |Created(net, [])| == |AllocationIds(net)|
    ensures forall i | 0 <= i < |AllocationIds(net)| :: Created(net, [])[i] == Outpoint(AllocationIds(net)[i], 0)
  {
  }

  lemma FreshIds(net: Network, txs: seq<Transfer>)
    requires RunTransfers(net, {}, GenesisUtxos(net), txs).Some?
    ensures (Distinct(AllocationIds(net)) && forall tx | tx in txs :: tx.txId !in AllocationIds(net))
            <==> !AllocationsCollide(net) && forall tx | tx in txs :: !AllocationMeets(net, tx)
    ensures forall tx | tx in txs :: tx.outputs != []
  {
    hide RunTransfers, AllocationsCollide, AllocationMeets, Distinct;
    RanValid(net, {}, GenesisUtxos(net), txs);
    forall tx | tx in txs ensures tx.outputs != [] && tx.txId == net.hash(OfTransfer(Body(tx))) {
      ValidMeans(net, tx);
    }
    RepeatedIdsCollide(net);
  }

  lemma ValidMeans(net: Network, tx: Transfer)
    requires TransferValid(net, tx)
    ensures tx.outputs != [] && tx.txId == net.hash(OfTransfer(Body(tx)))
  {
  }

  /** On every branch each outpoint is created at most once and spent at most once, only created ones are spent,
      and the live ones are exactly those created and not spent, unless the preimages of two allocations, or of an
      allocation and one of the branch's transfers, collide. */
  lemma BranchOutpoints(net: Network, txs: seq<Transfer>)
    requires RunTransfers(net, {}, GenesisUtxos(net), txs).Some? && AmountsPositive(net)
    ensures || AllocationsCollide(net)
            || (exists tx | tx in txs :: AllocationMeets(net, tx))
            || History(net, txs, RunTransfers(net, {}, GenesisUtxos(net), txs).value)
  {
    hide RunTransfers, AllocationsCollide, AllocationMeets, History, Distinct;
    FreshIds(net, txs);
    if !AllocationsCollide(net) && forall tx | tx in txs :: !AllocationMeets(net, tx) {
      FreshIdsHistory(net, txs);
    }
  }

  /** No outpoint of a branch is created twice exactly when no two of those preimages collide: nothing in the engine
      compares transfer IDs to allocation IDs. */
  lemma CreatedOnceIff(net: Network, txs: seq<Transfer>)
    requires RunTransfers(net, {}, GenesisUtxos(net), txs).Some? && AmountsPositive(net)
    ensures Distinct(Created(net, txs))
            <==> !AllocationsCollide(net) && forall tx | tx in txs :: !AllocationMeets(net, tx)
  {
    hide RunTransfers, Created, Distinct, AllocationsCollide, AllocationMeets;
    FreshIds(net, txs);
    BranchOutpoints(net, txs);
    if Distinct(Created(net, txs)) { CreatedOnceNeedsFreshIds(net, txs); }
  }

  /** The duplicate-outpoint check fires on a branch exactly for a valid transfer of a new ID whose preimage collides
      with that of an allocation that is live and that the transfer does not itself spend. */
  lemma DuplicateOutpointCheckFiresIff(net: Network, txs: seq<Transfer>, tx: Transfer)
    requires RunTransfers(net, {}, GenesisUtxos(net), txs).Some? && AmountsPositive(net)
    requires TransferValid(net, tx) && tx.txId !in RunTransfers(net, {}, GenesisUtxos(net), txs).value.ids
    ensures var utxos := RunTransfers(net, {}, GenesisUtxos(net), txs).value.utxos;
            !OutpointsFree(tx, utxos)
            <==> AllocationMeets(net, tx) && Outpoint(tx.txId, 0) in Without(utxos, Sources(tx))
  {
    hide RunTransfers, AllocationMeets, TransferValid;
    LiveIdsKnown(net, txs);
    ValidMeans(net, tx);
    RepeatedIdsCollide(net);
  }

  lemma {:induction false} LiveIdsKnown(net: Network, txs: seq<Transfer>)
    requires RunTransfers(net, {}, GenesisUtxos(net), txs).Some?
    requires AmountsPositive(net)
    ensures var l := RunTransfers(net, {}, GenesisUtxos(net), txs).value;
            forall o | o in l.utxos :: (o.txId in AllocationIds(net) && o.index == 0) || o.txId in l.ids
  {
    if txs == [] {
      GenesisContent(net, |net.allocations|);
      assert AllocationIds(net)[..|net.allocations|] == AllocationIds(net);
    } else {
      var front, tx := txs[..|txs| - 1], txs[|txs| - 1];
      LiveIdsKnown(net, front);
      var l := RunTransfers(net, {}, GenesisUtxos(net), front).value;
      WithOutputsContent(Without(l.utxos, Sources(tx)), tx.txId, tx.outputs);
    }
  }
}
