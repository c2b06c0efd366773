/** Where live outputs come from, and when they may be spent. */
module OriginsV1 {
  import opened Collections
  import opened Coins
  import opened ChainV1
  import opened BranchesV1
  import opened LimitsV1

  // ---------------------------------------------------------------- origins describe exactly the live outputs

  lemma {:induction false} WithOriginsContent(m: Origins, txId: Hash, n: nat, origin: Origin)
    ensures forall o :: o in WithOrigins(m, txId, n, origin) <==> o in m || (o.txId == txId && 0 <= o.index < n)
    ensures forall o | o in WithOrigins(m, txId, n, origin) ::
              WithOrigins(m, txId, n, origin)[o] == if o.txId == txId && 0 <= o.index < n then origin else m[o]
  {
    if n > 0 {
      WithOriginsContent(m, txId, n - 1, origin);
    }
  }

  lemma StepKeys(m: Utxos, s: Origins, e: Event)
    requires m.Keys == s.Keys
    ensures ApplyTransaction(m, e.tx).Keys == OriginStep(s, e).Keys
  {
    WithOriginsContent(s - Elements(e.tx.inputs), e.tx.txId, |e.tx.outputs|, e.origin);
    WithOutputsContent(Without(m, e.tx.inputs), e.tx.txId, e.tx.outputs);
  }

  lemma {:induction false} BlockKeys(m: Utxos, before: seq<Event>, b: Block, k: nat)
    requires m.Keys == FoldOrigins(before).Keys && k <= |b.transactions|
    ensures ApplyTransactions(m, b.transactions[..k]).Keys == FoldOrigins(before + BlockEvents(b, k)).Keys
  {
    hide ApplyTransaction, OriginStep;
    var events := before + BlockEvents(b, k);
    if k > 0 {
      BlockKeys(m, before, b, k - 1);
      assert events[..|events| - 1] == before + BlockEvents(b, k - 1);
      assert b.transactions[..k][..k - 1] == b.transactions[..k - 1];
      StepKeys(ApplyTransactions(m, b.transactions[..k - 1]), FoldOrigins(before + BlockEvents(b, k - 1)),
               events[|events| - 1]);
    } else {
      assert events == before;
    }
  }

  /** The origin metadata has exactly the live outpoints as its domain, on any path. */
  lemma {:induction false} OriginsCoverLiveOutputs(path: seq<Block>)
    ensures OriginsOf(path).Keys == UtxosOf(path).Keys
  {
    if path != [] {
      var b := path[|path| - 1];
      OriginsCoverLiveOutputs(path[..|path| - 1]);
      BlockKeys(UtxosOf(path[..|path| - 1]), Events(path[..|path| - 1]), b, |b.transactions|);
      assert b.transactions[..|b.transactions|] == b.transactions;
    }
  }

  // ---------------------------------------------------------------- the origin is the latest creation

  predicate Creates(e: Event, o: Outpoint) { o.txId == e.tx.txId && 0 <= o.index < |e.tx.outputs| }

  predicate Touches(e: Event, o: Outpoint) { Creates(e, o) || o in e.tx.inputs }

  /** Event `j` creates the output and no later event spends or creates it again. */
  predicate LastCreated(events: seq<Event>, o: Outpoint, j: nat)
  {
    j < |events| && Creates(events[j], o) && forall i | j < i < |events| :: !Touches(events[i], o)
  }

  lemma StepOrigin(s: Origins, e: Event, o: Outpoint)
    ensures Creates(e, o) ==> o in OriginStep(s, e) && OriginStep(s, e)[o] == e.origin
    ensures !Creates(e, o) && o in e.tx.inputs ==> o !in OriginStep(s, e)
    ensures !Touches(e, o) ==> (o in OriginStep(s, e) <==> o in s)
    ensures !Touches(e, o) && o in s ==> OriginStep(s, e)[o] == s[o]
  {
    WithOriginsContent(s - Elements(e.tx.inputs), e.tx.txId, |e.tx.outputs|, e.origin);
  }

  /** An outpoint has metadata exactly when some event created it last, and then carries that event's origin. */
  lemma {:induction false} OriginIsLatestCreation(events: seq<Event>, o: Outpoint)
    ensures o in FoldOrigins(events) <==> exists j: nat :: LastCreated(events, o, j)
    ensures forall j: nat | LastCreated(events, o, j) ::
          o in FoldOrigins(events) && FoldOrigins(events)[o] == events[j].origin
  {
    hide OriginStep;
    if events != [] {
      var n := |events| - 1;
      var front, last := events[..n], events[n];
      OriginIsLatestCreation(front, o);
      StepOrigin(FoldOrigins(front), last, o);
      assert Creates(last, o) ==> LastCreated(events, o, n);
      if !Touches(last, o) {
        forall j: nat ensures LastCreated(front, o, j) <==> LastCreated(events, o, j) {
          LastCreatedExtends(events, o, j);
        }
      } else {
        assert forall j: nat | LastCreated(events, o, j) :: j == n;
      }
    }
  }

  lemma LastCreatedExtends(events: seq<Event>, o: Outpoint, j: nat)
    requires events != [] && !Touches(events[|events| - 1], o)
    ensures LastCreated(events[..|events| - 1], o, j) <==> LastCreated(events, o, j)
  {
    var front := events[..|events| - 1];
    assert forall i | 0 <= i < |front| :: front[i] == events[i];
    if LastCreated(front, o, j) {
      assert forall i | j < i < |events| :: !Touches(events[i], o);
    }
  }

  // ---------------------------------------------------------------- live outputs are those of their last creation

  function FoldUtxos(events: seq<Event>): Utxos
  {
    if events == [] then map[] else ApplyTransaction(FoldUtxos(events[..|events| - 1]), events[|events| - 1].tx)
  }

  lemma {:induction false} BlockFold(before: seq<Event>, b: Block, k: nat)
    requires k <= |b.transactions|
    ensures ApplyTransactions(FoldUtxos(before), b.transactions[..k]) == FoldUtxos(before + BlockEvents(b, k))
  {
    hide ApplyTransaction;
    var events := before + BlockEvents(b, k);
    if k > 0 {
      BlockFold(before, b, k - 1);
      assert events[..|events| - 1] == before + BlockEvents(b, k - 1);
      assert b.transactions[..k][..k - 1] == b.transactions[..k - 1];
    } else {
      assert events == before;
    }
  }

  lemma {:induction false} UtxosAreFold(path: seq<Block>)
    ensures UtxosOf(path) == FoldUtxos(Events(path))
  {
    hide ApplyTransactions, ApplyTransaction;
    if path != [] {
      var front, b := path[..|path| - 1], path[|path| - 1];
      UtxosAreFold(front);
      BlockFold(Events(front), b, |b.transactions|);
      assert b.transactions[..|b.transactions|] == b.transactions;
    }
  }

  lemma StepLive(m: Utxos, e: Event, o: Outpoint)
    ensures var next := ApplyTransaction(m, e.tx);
            && (Creates(e, o) ==> o in next && next[o] == e.tx.outputs[o.index])
            && (!Creates(e, o) && o in e.tx.inputs ==> o !in next)
            && (!Touches(e, o) ==> (o in next <==> o in m) && (o in m ==> next[o] == m[o]))
  {
    WithOutputsContent(Without(m, e.tx.inputs), e.tx.txId, e.tx.outputs);
  }

  lemma {:induction false} FoldLive(events: seq<Event>, o: Outpoint)
    ensures o in FoldUtxos(events) <==> exists j: nat :: LastCreated(events, o, j)
    ensures forall j: nat | LastCreated(events, o, j) ::
              o in FoldUtxos(events) && FoldUtxos(events)[o] == events[j].tx.outputs[o.index]
  {
    hide ApplyTransaction;
    if events != [] {
      var n := |events| - 1;
      var front, last := events[..n], events[n];
      FoldLive(front, o);
      StepLive(FoldUtxos(front), last, o);
      assert Creates(last, o) ==> LastCreated(events, o, n);
      if !Touches(last, o) {
        forall j: nat ensures LastCreated(front, o, j) <==> LastCreated(events, o, j) {
          LastCreatedExtends(events, o, j);
        }
      } else {
        assert forall j: nat | LastCreated(events, o, j) :: j == n;
      }
    }
  }

  /** An output is live after a path exactly when one of its transactions created it last and none spent it since, and
      it is the coin which that transaction lists at its index. */
  lemma LiveOutputIsItsCreation(path: seq<Block>, o: Outpoint)
    ensures o in UtxosOf(path) <==> exists j: nat :: LastCreated(Events(path), o, j)
    ensures forall j: nat | LastCreated(Events(path), o, j) ::
              o in UtxosOf(path) && UtxosOf(path)[o] == Events(path)[j].tx.outputs[o.index]
  {
    hide UtxosOf, FoldUtxos, Events;
    UtxosAreFold(path);
    FoldLive(Events(path), o);
  }

  // ---------------------------------------------------------------- events and their places on a path

  /** A transaction's place on a path. */
  datatype Spot = Spot(block: nat, index: nat)

  predicate OnPath(path: seq<Block>, p: Spot) { p.block < |path| && p.index < |path[p.block].transactions| }

  predicate Earlier(p: Spot, q: Spot) { p.block < q.block || (p.block == q.block && p.index < q.index) }

  function At(path: seq<Block>, p: Spot): Transaction
    requires OnPath(path, p)
  {
    path[p.block].transactions[p.index]
  }

  /** The events of all transactions before a place. */
  function EventsBefore(path: seq<Block>, q: Spot): seq<Event>
    requires q.block < |path| && q.index <= |path[q.block].transactions|
  {
    Events(path[..q.block]) + BlockEvents(path[q.block], q.index)
  }

  lemma {:induction false} EventsGrow(path: seq<Block>, m: nat, n: nat)
    requires m <= n <= |path|
    ensures Events(path[..m]) <= Events(path[..n])
    ensures m < n ==> Events(path[..m]) + BlockEvents(path[m], |path[m].transactions|) <= Events(path[..n])
    decreases n
  {
    if m < n {
      EventsGrow(path, m, n - 1);
      assert path[..n][..n - 1] == path[..n - 1];
    }
  }

  /** A place before another is an event before it, at an index that grows with the place. */
  lemma EventOf(path: seq<Block>, p: Spot, q: Spot) returns (j: nat)
    requires OnPath(path, p) && q.block < |path| && q.index <= |path[q.block].transactions| && Earlier(p, q)
    ensures j == |EventsBefore(path, p)| < |EventsBefore(path, q)|
    ensures EventsBefore(path, q)[j] == Event(At(path, p), OriginOf(path[p.block], p.index))
  {
    j := |EventsBefore(path, p)|;
    EventsGrow(path, p.block, q.block);
    if p.block < q.block {
      assert (Events(path[..p.block]) + BlockEvents(path[p.block], |path[p.block].transactions|))[j]
        == Event(At(path, p), OriginOf(path[p.block], p.index));
    }
  }

  /** Every event before a place is a transaction at an earlier place. */
  lemma {:induction false} SpotOf(path: seq<Block>, q: Spot, j: nat) returns (p: Spot)
    requires q.block < |path| && q.index <= |path[q.block].transactions| && j < |EventsBefore(path, q)|
    ensures OnPath(path, p) && Earlier(p, q) && j == |EventsBefore(path, p)|
    decreases q.block
  {
    var front := Events(path[..q.block]);
    if j >= |front| {
      p := Spot(q.block, j - |front|);
    } else {
      var last := Spot(q.block - 1, |path[q.block - 1].transactions|);
      assert path[..q.block][..q.block - 1] == path[..q.block - 1];
      p := SpotOf(path, last, j);
    }
  }

  /** The transaction at `p` created the output, and none between there and `q` spent or created it. */
  ghost predicate CreatedLastAt(path: seq<Block>, o: Outpoint, p: Spot, q: Spot)
  {
    && OnPath(path, p) && Earlier(p, q)
    && o.txId == At(path, p).txId && 0 <= o.index < |At(path, p).outputs|
    && forall r | OnPath(path, r) && Earlier(p, r) && Earlier(r, q) ::
         o !in At(path, r).inputs && !(o.txId == At(path, r).txId && 0 <= o.index < |At(path, r).outputs|)
  }

  /** The latest creation on the path is the latest creating event. */
  lemma LastCreatedAt(path: seq<Block>, o: Outpoint, p: Spot, q: Spot)
    requires OnPath(path, q) && CreatedLastAt(path, o, p, q)
    ensures LastCreated(EventsBefore(path, q), o, |EventsBefore(path, p)|)
    ensures EventsBefore(path, q)[|EventsBefore(path, p)|].origin == OriginOf(path[p.block], p.index)
  {
    hide EventsBefore;
    var events := EventsBefore(path, q);
    var j := EventOf(path, p, q);
    forall i | j < i < |events| ensures !Touches(events[i], o) {
      var r := SpotOf(path, q, i);
      var k := EventOf(path, r, q);
      if !Earlier(p, r) { EventsNotLater(path, r, p); }
    }
  }

  lemma EventsNotLater(path: seq<Block>, r: Spot, p: Spot)
    requires OnPath(path, r) && OnPath(path, p) && !Earlier(p, r)
    ensures |EventsBefore(path, r)| <= |EventsBefore(path, p)|
  {
    if r != p { var j := EventOf(path, r, p); }
  }

  lemma CreatedLastSomewhere(path: seq<Block>, o: Outpoint, q: Spot, j: nat) returns (p: Spot)
    requires OnPath(path, q) && LastCreated(EventsBefore(path, q), o, j)
    ensures CreatedLastAt(path, o, p, q) && EventsBefore(path, q)[j].origin == OriginOf(path[p.block], p.index)
  {
    hide EventsBefore;
    p := SpotOf(path, q, j);
    var i := EventOf(path, p, q);
    forall r | OnPath(path, r) && Earlier(p, r) && Earlier(r, q)
      ensures o !in At(path, r).inputs && !(o.txId == At(path, r).txId && 0 <= o.index < |At(path, r).outputs|)
    {
      var k := EventOf(path, r, q);
      var l := EventOf(path, p, r);
      assert !Touches(EventsBefore(path, q)[k], o);
    }
  }

  // ---------------------------------------------------------------- spend timing

  function EscrowBlocks(cfg: Config): nat { if cfg.escrowBlocks > 0 then cfg.escrowBlocks else 0 }

  /** The first transaction of a block above the genesis, without inputs. */
  predicate IsReward(path: seq<Block>, p: Spot)
    requires OnPath(path, p)
  {
    p.block > 0 && p.index == 0 && At(path, p).inputs == []
  }

  lemma InputMatured(cfg: Config, env: Env, tx: Transaction, view: Utxos, origins: Origins, claimed: set<string>,
                     height: int, inputless: bool, maxTimestamp: int, o: Outpoint)
    requires TransactionValid(cfg, env, tx, view, origins, claimed, height, inputless, maxTimestamp) && o in tx.inputs
    ensures o in view && Matured(cfg, env, origins, o, height)
  {
  }

  lemma SpendMatured(cfg: Config, env: Env, path: seq<Block>, b: Block, k: nat, o: Outpoint)
    requires BlockValid(cfg, env, path, b) && k < |b.transactions| && o in b.transactions[k].inputs
    ensures var origins := FoldOrigins(Events(path) + BlockEvents(b, k));
            o in origins && Matured(cfg, env, origins, o, b.index)
  {
    hide ScanBlock, TransactionValid, UtxosOf, SupplyOf, Events, FoldOrigins, Total;
    BlockIndex(cfg, env, path, b);
    ScanPrefix(cfg, env, path, b, k, |b.transactions|);
    ScanPrefix(cfg, env, path, b, k + 1, |b.transactions|);
    ScanIsReplay(cfg, env, path, b, k);
    StepReads(cfg, env, path, b, k);
    OriginsCoverLiveOutputs(path);
    BlockKeys(UtxosOf(path), Events(path), b, k);
    var s, tx := ScanBlock(cfg, env, path, b, k).value, b.transactions[k];
    InputMatured(cfg, env, tx, s.view, s.origins, Elements(ClaimsOf(path)) + s.claimed, b.index,
                 k == 0, b.timestamp, o);
  }

  /** What the origin of a spent output must allow at a height. */
  predicate OriginAllows(cfg: Config, env: Env, origin: Origin, height: int)
  {
    && (origin.coinbase ==> height >= origin.height + cfg.coinbaseMaturity)
    && (origin.claim.Some? ==>
          !env.frozen(origin.claim.value.classicalAddress) && height >= origin.height + EscrowBlocks(cfg))
  }

  /** Some latest creation of the spent output is on the path, and its origin allows the spend. */
  lemma SpendAllowed(cfg: Config, env: Env, path: seq<Block>, b: Block, k: nat, o: Outpoint) returns (p: Spot)
    requires BlockValid(cfg, env, path, b) && k < |b.transactions| && o in b.transactions[k].inputs
    ensures CreatedLastAt(path + [b], o, p, Spot(|path|, k))
    ensures OriginAllows(cfg, env, OriginOf((path + [b])[p.block], p.index), b.index)
  {
    hide BlockValid, Events, CreatedLastAt;
    var full, q := path + [b], Spot(|path|, k);
    assert full[..|path|] == path;
    SpendMatured(cfg, env, path, b, k, o);
    OriginIsLatestCreation(EventsBefore(full, q), o);
    var j: nat :| LastCreated(EventsBefore(full, q), o, j);
    p := CreatedLastSomewhere(full, o, q, j);
    assert OnPath(full, p) by { CreatedOnPath(full, o, p, q); }
  }

  lemma CreatedOnPath(path: seq<Block>, o: Outpoint, p: Spot, q: Spot)
    requires CreatedLastAt(path, o, p, q)
    ensures OnPath(path, p)
  {
  }

  /** An output spent at `q` was created last by a transaction at least so many blocks below. */
  ghost predicate SpentInTime(cfg: Config, path: seq<Block>, o: Outpoint, q: Spot)
  {
    exists p ::
      && CreatedLastAt(path, o, p, q)
      && (IsReward(path, p) ==> q.block >= p.block + cfg.coinbaseMaturity)
      && (At(path, p).kind == ClaimKind ==> q.block >= p.block + EscrowBlocks(cfg))
  }

  /** On every accepted branch, whatever transaction of block `n` spends an output, the transaction of the branch that
      created it last stands in a block `coinbaseMaturity` below if it is a reward, and the escrow time below if it is
      a migration claim. */
  lemma SpendTiming(cfg: Config, path: seq<Block>, q: Spot, o: Outpoint)
    requires BranchValid(cfg, path) && OnPath(path, q) && o in At(path, q).inputs
    ensures SpentInTime(cfg, path, o, q)
  {
    hide GenesisValid, BlockValid, CreatedLastAt;
    var n := q.block;
    var upTo, front, b := path[..n + 1], path[..n], path[n];
    PrefixValid(cfg, path, n + 1);
    assert upTo[..n] == front && upTo == front + [b];
    if n == 0 {
      var env :| GenesisValid(cfg, env, upTo[0]);
      GenesisIndex(cfg, env, b);
    } else {
      var env :| BlockValid(cfg, env, front, upTo[n]);
      var p := SpendAllowed(cfg, env, front, b, q.index, o);
      CreatedOnPath(upTo, o, p, q);
      SameOnLonger(path, n + 1, o, p, q);
      BranchHeights(cfg, path, n);
      BranchHeights(cfg, path, p.block);
      CreatedOnPath(path, o, p, q);
      assert upTo[p.block] == path[p.block];
    }
  }

  lemma SameOnLonger(path: seq<Block>, n: nat, o: Outpoint, p: Spot, q: Spot)
    requires n <= |path| && q.block < n && CreatedLastAt(path[..n], o, p, q)
    ensures CreatedLastAt(path, o, p, q)
  {
    forall r | OnPath(path, r) && Earlier(p, r) && Earlier(r, q)
      ensures o !in At(path, r).inputs && !(o.txId == At(path, r).txId && 0 <= o.index < |At(path, r).outputs|)
    {
      assert OnPath(path[..n], r) && At(path[..n], r) == At(path, r);
    }
  }

  /** While an address is frozen, no accepted block spends an output that a claim on it created last. */
  lemma FrozenIsNotSpent(cfg: Config, env: Env, path: seq<Block>, b: Block, k: nat, o: Outpoint, p: Spot)
    requires BlockValid(cfg, env, path, b) && k < |b.transactions| && o in b.transactions[k].inputs
    requires CreatedLastAt(path + [b], o, p, Spot(|path|, k))
    ensures OnPath(path + [b], p)
    ensures var tx := At(path + [b], p); tx.kind == ClaimKind ==> !env.frozen(tx.claim.classicalAddress)
  {
    hide BlockValid, Events, LastCreated;
    var full, q := path + [b], Spot(|path|, k);
    assert full[..|path|] == path;
    SpendMatured(cfg, env, path, b, k, o);
    LastCreatedAt(full, o, p, q);
    OriginIsLatestCreation(EventsBefore(full, q), o);
  }
}
