/** Disputes over migrated balances and the review status of their sources. */
module Disputes {
  import opened Results
  import opened Coins
  import opened ChainV1
  import opened OriginsV1

  type DisputeId = int

  datatype DisputeStatus = Open | EvidenceSubmitted | ResolvedValid | ResolvedFraud | Expired

  datatype SourceStatus = Active | Quarantined | Revoked

  datatype Dispute = Dispute(address: string, deadline: int, status: DisputeStatus)

  type DisputeTable = map<DisputeId, Dispute>

  type SourceTable = map<string, SourceStatus>

  datatype Desk = Desk(disputes: DisputeTable, sources: SourceTable)

  /** One operator or node action; heights are what the chain counts at that moment. An action on disputes writes the
      dispute first and its source in a second transaction: `stops` says that the process stops in between, `skipped`
      names the sources that an expiry no longer reaches. */
  datatype Action =
    | OpenOn(id: DisputeId, address: string, deadline: int, stops: bool)
    | SubmitEvidence(id: DisputeId, height: int, stops: bool)
    | Resolve(id: DisputeId, fraud: bool, stops: bool)
    | ExpireAt(height: int, skipped: set<string>)
    | SetSource(address: string, status: SourceStatus)
    | SeedSource(address: string)

  predicate Pending(d: Dispute) { d.status == Open || d.status == EvidenceSubmitted }

  predicate Lapsed(d: Dispute, height: int) { Pending(d) && d.deadline < height }

  /** An action is refused, and then changes nothing, unless this holds. */
  predicate Allowed(k: Desk, a: Action)
  {
    match a
    case OpenOn(id, address, _, _) => address in k.sources && id !in k.disputes
    case SubmitEvidence(id, height, _) =>
      id in k.disputes && Pending(k.disputes[id]) && height <= k.disputes[id].deadline
    case Resolve(id, _, _) => id in k.disputes && Pending(k.disputes[id])
    case SetSource(address, _) => address in k.sources
    case ExpireAt(_, _) => true
    case SeedSource(address) => address != ""
  }

  function AfterExpiry(k: Desk, height: int, skipped: set<string>): Desk
  {
    Desk(map id | id in k.disputes ::
           if Lapsed(k.disputes[id], height) then k.disputes[id].(status := Expired) else k.disputes[id],
         map s | s in k.sources ::
           if s !in skipped
              && exists id | id in k.disputes :: Lapsed(k.disputes[id], height) && k.disputes[id].address == s
           then Active else k.sources[s])
  }

  function After(k: Desk, a: Action): Desk
  {
    if !Allowed(k, a) then k
    else
      match a
      case OpenOn(id, address, deadline, stops) =>
        Desk(k.disputes[id := Dispute(address, deadline, Open)],
             if stops then k.sources else k.sources[address := Quarantined])
      case SubmitEvidence(id, _, stops) =>
        Desk(k.disputes[id := k.disputes[id].(status := EvidenceSubmitted)],
             if stops then k.sources else k.sources[k.disputes[id].address := Quarantined])
      case Resolve(id, fraud, stops) =>
        Desk(k.disputes[id := k.disputes[id].(status := if fraud then ResolvedFraud else ResolvedValid)],
             if stops then k.sources else k.sources[k.disputes[id].address := if fraud then Revoked else Active])
      case ExpireAt(height, skipped) => AfterExpiry(k, height, skipped)
      case SetSource(address, status) => k.(sources := k.sources[address := status])
      case SeedSource(address) => k.(sources := k.sources[address := Active])
  }

  function Run(k: Desk, actions: seq<Action>): Desk
  {
    if actions == [] then k else After(Run(k, actions[..|actions| - 1]), actions[|actions| - 1])
  }

  const EmptyDesk := Desk(map[], map[])

  // ---------------------------------------------------------------- finality of a migrated output

  datatype Finality = FraudFrozen | DisputeFrozen | EscrowLocked | Unlocked

  predicate HasFraud(k: Desk, address: string)
  {
    exists id | id in k.disputes :: k.disputes[id].address == address && k.disputes[id].status == ResolvedFraud
  }

  predicate HasPending(k: Desk, address: string)
  {
    exists id | id in k.disputes :: k.disputes[id].address == address && Pending(k.disputes[id])
  }

  function FinalityOf(k: Desk, address: string, originHeight: int, height: int, escrowBlocks: int): Finality
  {
    var source := if address in k.sources then Some(k.sources[address]) else None;
    if HasFraud(k, address) || source == Some(Revoked) then FraudFrozen
    else if HasPending(k, address) || source == Some(Quarantined) then DisputeFrozen
    else if height < originHeight + (if escrowBlocks > 0 then escrowBlocks else 0) then EscrowLocked
    else Unlocked
  }

  /** A frozen address has no spendable output however old it is. */
  predicate Frozen(k: Desk, address: string)
  {
    var finality := FinalityOf(k, address, 0, 0, 0);
    finality == FraudFrozen || finality == DisputeFrozen
  }

  /** The finality rule and the spending rule of the chain agree. */
  lemma FinalityIsMaturity(cfg: Config, env: Env, k: Desk, origins: Origins, o: Outpoint, height: int)
    requires forall address :: env.frozen(address) == Frozen(k, address)
    requires o in origins && origins[o].claim.Some? && !origins[o].coinbase
    ensures Matured(cfg, env, origins, o, height)
            <==> Unlocked == FinalityOf(k, origins[o].claim.value.classicalAddress, origins[o].height, height,
                                        cfg.escrowBlocks)
  {
  }

  /** A migrated output is spendable exactly when every dispute on its address ended without a fraud finding, its
      source is neither quarantined nor revoked, and its escrow is over. */
  lemma UnlockedIff(k: Desk, address: string, originHeight: int, height: int, escrowBlocks: int)
    ensures FinalityOf(k, address, originHeight, height, escrowBlocks) == Unlocked
            <==> && (forall id | id in k.disputes && k.disputes[id].address == address ::
                       k.disputes[id].status == ResolvedValid || k.disputes[id].status == Expired)
                 && (address in k.sources ==> k.sources[address] == Active)
                 && height >= originHeight && height >= originHeight + escrowBlocks
  {
    var d := k.disputes;
    if forall id | id in d && d[id].address == address :: d[id].status == ResolvedValid || d[id].status == Expired {
      assert !HasFraud(k, address) && !HasPending(k, address);
    } else {
      var id :| id in d && d[id].address == address && d[id].status != ResolvedValid && d[id].status != Expired;
      assert d[id].status == ResolvedFraud || Pending(d[id]);
    }
  }

  // ---------------------------------------------------------------- over every run

  /** Ended disputes never change. */
  lemma EndedStays(k: Desk, a: Action, id: DisputeId)
    requires id in k.disputes && !Pending(k.disputes[id])
    ensures id in After(k, a).disputes && After(k, a).disputes[id] == k.disputes[id]
  {
  }

  /** How a dispute moves: its address and deadline never change, a pending one takes evidence up to its deadline,
      expires only behind it, and ends otherwise by a resolution alone; an ended one stays. */
  lemma DisputeChanges(k: Desk, a: Action, id: DisputeId)
    requires id in k.disputes
    ensures id in After(k, a).disputes
    ensures var before, after := k.disputes[id], After(k, a).disputes[id];
            && after.address == before.address && after.deadline == before.deadline
            && if before.status == Open || before.status == EvidenceSubmitted then
                 && (after.status == ResolvedFraud <==> a.Resolve? && a.id == id && a.fraud)
                 && (after.status == ResolvedValid <==> a.Resolve? && a.id == id && !a.fraud)
                 && (after.status == Expired <==> a.ExpireAt? && before.deadline < a.height)
                 && (after.status == EvidenceSubmitted
                     <==> || (a.SubmitEvidence? && a.id == id && a.height <= before.deadline)
                          || (before.status == EvidenceSubmitted && !(a.Resolve? && a.id == id)
                              && !(a.ExpireAt? && before.deadline < a.height)))
               else after == before
  {
  }

  /** Evidence is taken at a height exactly when an expiry at that height leaves the dispute pending. */
  lemma EvidenceUntilExpiry(k: Desk, id: DisputeId, height: int, stops: bool, skipped: set<string>)
    requires id in k.disputes
    ensures After(k, SubmitEvidence(id, height, stops)).disputes[id].status == EvidenceSubmitted
              && Allowed(k, SubmitEvidence(id, height, stops))
            <==> Pending(After(k, ExpireAt(height, skipped)).disputes[id])
  {
  }

  lemma {:induction false} EndedStaysForever(k: Desk, actions: seq<Action>, id: DisputeId)
    requires id in k.disputes && !Pending(k.disputes[id])
    ensures id in Run(k, actions).disputes && Run(k, actions).disputes[id] == k.disputes[id]
  {
    if actions != [] {
      EndedStaysForever(k, actions[..|actions| - 1], id);
      EndedStays(Run(k, actions[..|actions| - 1]), actions[|actions| - 1], id);
    }
  }

  /** Once one dispute on an address resolves as fraud, no later run unfreezes it, whatever else happens: other
      disputes expiring or resolving valid, the source set active or seeded again. */
  lemma FraudIsFinal(k: Desk, actions: seq<Action>, address: string, originHeight: int, height: int, escrowBlocks: int)
    requires HasFraud(k, address)
    ensures HasFraud(Run(k, actions), address)
    ensures FinalityOf(Run(k, actions), address, originHeight, height, escrowBlocks) == FraudFrozen
  {
    var id :| id in k.disputes && k.disputes[id].address == address && k.disputes[id].status == ResolvedFraud;
    EndedStaysForever(k, actions, id);
  }

  /** Action `i` of a run from the empty desk finds fraud in a pending dispute on the address. */
  predicate FindsFraud(actions: seq<Action>, i: nat, address: string)
  {
    i < |actions|
    && actions[i].Resolve? && actions[i].fraud
    && var k := Run(EmptyDesk, actions[..i]);
       Allowed(k, actions[i]) && k.disputes[actions[i].id].address == address
  }

  lemma FraudStep(k: Desk, a: Action, address: string)
    ensures HasFraud(After(k, a), address)
            <==> HasFraud(k, address)
                 || (a.Resolve? && a.fraud && Allowed(k, a) && k.disputes[a.id].address == address)
  {
    var next := After(k, a);
    if HasFraud(k, address) {
      var id :| id in k.disputes && k.disputes[id].address == address && k.disputes[id].status == ResolvedFraud;
      EndedStays(k, a, id);
    }
    if HasFraud(next, address) && !HasFraud(k, address) {
      var id :| id in next.disputes && next.disputes[id].address == address
        && next.disputes[id].status == ResolvedFraud;
      assert a.Resolve? && a.id == id;
    }
    if a.Resolve? && a.fraud && Allowed(k, a) && k.disputes[a.id].address == address {
      assert next.disputes[a.id].status == ResolvedFraud;
    }
  }

  lemma FindsFraudExtends(actions: seq<Action>, i: nat, address: string)
    requires actions != [] && i < |actions| - 1
    ensures FindsFraud(actions, i, address) <==> FindsFraud(actions[..|actions| - 1], i, address)
  {
    assert actions[..|actions| - 1][..i] == actions[..i];
  }

  /** An address counts as fraudulent exactly when some action of the run found fraud in a dispute on it. */
  lemma {:induction false} FraudIff(actions: seq<Action>, address: string)
    ensures HasFraud(Run(EmptyDesk, actions), address) <==> exists i: nat :: FindsFraud(actions, i, address)
  {
    if actions != [] {
      var n := |actions| - 1;
      var front := actions[..n];
      FraudIff(front, address);
      FraudStep(Run(EmptyDesk, front), actions[n], address);
      forall i: nat | i < n ensures FindsFraud(actions, i, address) <==> FindsFraud(front, i, address) {
        FindsFraudExtends(actions, i, address);
      }
      assert FindsFraud(actions, n, address)
        <==> actions[n].Resolve? && actions[n].fraud && Allowed(Run(EmptyDesk, front), actions[n])
             && Run(EmptyDesk, front).disputes[actions[n].id].address == address;
      assert forall i: nat | FindsFraud(front, i, address) :: i < n;
    }
  }

  predicate Sourced(k: Desk) { forall id | id in k.disputes :: k.disputes[id].address in k.sources }

  lemma SourcesKept(k: Desk, a: Action)
    requires Sourced(k)
    ensures Sourced(After(k, a))
  {
    assert forall id | id in After(k, a).disputes && id in k.disputes ::
        After(k, a).disputes[id].address == k.disputes[id].address;
    assert k.sources.Keys <= After(k, a).sources.Keys;
  }

  /** Every dispute is on a known source, so no action stops halfway on an unknown one. */
  lemma {:induction false} DisputesHaveSources(actions: seq<Action>)
    ensures Sourced(Run(EmptyDesk, actions))
  {
    if actions != [] {
      var n := |actions| - 1;
      DisputesHaveSources(actions[..n]);
      SourcesKept(Run(EmptyDesk, actions[..n]), actions[n]);
    }
  }

  // ---------------------------------------------------------------- are disputed sources quarantined?

  /** No pending dispute is on an active source. */
  predicate Guarded(k: Desk)
  {
    forall id | id in k.disputes && Pending(k.disputes[id]) ::
      k.disputes[id].address in k.sources && k.sources[k.disputes[id].address] != Active
  }

  /** The action leaves no source active that a pending dispute is on afterwards. */
  predicate Safe(k: Desk, a: Action)
  {
    match a
    case OpenOn(_, address, _, stops) => stops ==> address in k.sources && k.sources[address] != Active
    case ExpireAt(height, skipped) =>
      forall i, j | i in k.disputes && j in k.disputes && Lapsed(k.disputes[i], height)
                    && k.disputes[i].address !in skipped
                    && Pending(k.disputes[j]) && k.disputes[j].address == k.disputes[i].address ::
        Lapsed(k.disputes[j], height)
    case Resolve(id, fraud, stops) =>
      !fraud && !stops && id in k.disputes ==>
        forall j | j in k.disputes && j != id && Pending(k.disputes[j]) ::
          k.disputes[j].address != k.disputes[id].address
    case SetSource(address, status) => status == Active ==> !HasPending(k, address)
    case SeedSource(address) => !HasPending(k, address)
    case SubmitEvidence(_, _, _) => true
  }

  /** Every allowed action from which an active source with a pending dispute could come is one of these: a source set
      active or seeded again, a dispute resolved as valid, or one that lapses, while another is pending; and opening a
      dispute on an active source by a process that stops before it quarantines it. */
  lemma GuardKeptIff(k: Desk, a: Action)
    requires Guarded(k) && Sourced(k) && Allowed(k, a)
    ensures Guarded(After(k, a)) <==> Safe(k, a)
  {
    match a
    case OpenOn(id, address, deadline, stops) => OpenGuard(k, a);
    case ExpireAt(height, skipped) => ExpiryGuard(k, height, skipped);
    case Resolve(id, fraud, stops) => ResolveGuard(k, a);
    case SetSource(address, status) => SetGuard(k, address, status);
    case SeedSource(address) => SetGuard(k, address, Active);
    case _ =>
  }

  lemma OpenGuard(k: Desk, a: Action)
    requires Guarded(k) && Allowed(k, a) && a.OpenOn?
    ensures Guarded(After(k, a)) <==> Safe(k, a)
  {
    assert Pending(After(k, a).disputes[a.id]);
  }

  lemma ResolveGuard(k: Desk, a: Action)
    requires Guarded(k) && Allowed(k, a) && a.Resolve?
    ensures Guarded(After(k, a)) <==> Safe(k, a)
  {
    var next := After(k, a);
    assert forall j | j in k.disputes && j != a.id :: next.disputes[j] == k.disputes[j];
    if !Safe(k, a) {
      var j :| j in k.disputes && j != a.id && Pending(k.disputes[j])
               && k.disputes[j].address == k.disputes[a.id].address;
      assert Pending(next.disputes[j]);
    }
  }

  lemma SetGuard(k: Desk, address: string, status: SourceStatus)
    requires Guarded(k)
    ensures Guarded(k.(sources := k.sources[address := status])) <==> (status == Active ==> !HasPending(k, address))
  {
    if status == Active && HasPending(k, address) {
      var id :| id in k.disputes && k.disputes[id].address == address && Pending(k.disputes[id]);
      assert !Guarded(k.(sources := k.sources[address := status]));
    }
  }

  lemma ExpiryGuard(k: Desk, height: int, skipped: set<string>)
    requires Guarded(k) && Sourced(k)
    ensures Guarded(AfterExpiry(k, height, skipped)) <==> Safe(k, ExpireAt(height, skipped))
  {
    var next := AfterExpiry(k, height, skipped);
    if !Safe(k, ExpireAt(height, skipped)) {
      var i, j :| i in k.disputes && j in k.disputes && Lapsed(k.disputes[i], height)
                  && k.disputes[i].address !in skipped
                  && Pending(k.disputes[j]) && k.disputes[j].address == k.disputes[i].address
                  && !Lapsed(k.disputes[j], height);
      assert next.disputes[j] == k.disputes[j] && next.sources[k.disputes[j].address] == Active;
    } else {
      forall j | j in next.disputes && Pending(next.disputes[j])
        ensures next.sources[next.disputes[j].address] != Active
      {
        assert next.disputes[j] == k.disputes[j] && Pending(k.disputes[j]) && !Lapsed(k.disputes[j], height);
      }
    }
  }

  /** Action `i` of a run from the empty desk is refused or safe. */
  predicate SafeAt(actions: seq<Action>, i: nat)
    requires i < |actions|
  {
    var k := Run(EmptyDesk, actions[..i]);
    Allowed(k, actions[i]) ==> Safe(k, actions[i])
  }

  lemma RunNext(actions: seq<Action>, i: nat)
    requires i < |actions|
    ensures Run(EmptyDesk, actions[..i + 1]) == After(Run(EmptyDesk, actions[..i]), actions[i])
  {
    assert actions[..i + 1][..i] == actions[..i];
  }

  lemma {:induction false} SafeRunGuarded(actions: seq<Action>, n: nat)
    requires n <= |actions| && forall i | 0 <= i < n :: SafeAt(actions, i)
    ensures Guarded(Run(EmptyDesk, actions[..n]))
  {
    hide Guarded, Safe;
    if n > 0 {
      SafeRunGuarded(actions, n - 1);
      RunNext(actions, n - 1);
      DisputesHaveSources(actions[..n - 1]);
      var k := Run(EmptyDesk, actions[..n - 1]);
      assert SafeAt(actions, n - 1);
      if Allowed(k, actions[n - 1]) { GuardKeptIff(k, actions[n - 1]); }
    } else {
      assert Guarded(EmptyDesk) by { NothingPending(); }
    }
  }

  lemma NothingPending()
    ensures Guarded(EmptyDesk)
  {
  }

  /** Throughout a run every disputed source stays quarantined or revoked exactly when every action that is not refused
      is safe at its moment. */
  lemma GuardedThroughoutIff(actions: seq<Action>)
    ensures (forall n | 0 <= n <= |actions| :: Guarded(Run(EmptyDesk, actions[..n])))
            <==> forall i | 0 <= i < |actions| :: SafeAt(actions, i)
  {
    hide Guarded, Safe, Allowed;
    if forall n | 0 <= n <= |actions| :: Guarded(Run(EmptyDesk, actions[..n])) {
      forall i | 0 <= i < |actions| ensures SafeAt(actions, i) {
        assert Guarded(Run(EmptyDesk, actions[..i + 1]));
        RunNext(actions, i);
        DisputesHaveSources(actions[..i]);
        if Allowed(Run(EmptyDesk, actions[..i]), actions[i]) { GuardKeptIff(Run(EmptyDesk, actions[..i]), actions[i]); }
      }
    }
    if forall i | 0 <= i < |actions| :: SafeAt(actions, i) {
      forall n | 0 <= n <= |actions| ensures Guarded(Run(EmptyDesk, actions[..n])) {
        SafeRunGuarded(actions, n);
      }
    }
  }

  /** An expiring dispute reactivates the source although another is open on it; the output stays frozen. */
  lemma ExpiryReactivatesSource(address: string)
    requires address != ""
    ensures var k := Run(EmptyDesk, [SeedSource(address), OpenOn(1, address, 10, false),
                                     OpenOn(2, address, 20, false), ExpireAt(11, {})]);
            && address in k.sources && k.sources[address] == Active
            && 2 in k.disputes && Pending(k.disputes[2])
            && Frozen(k, address)
  {
    var a, b, c := SeedSource(address), OpenOn(1, address, 10, false), OpenOn(2, address, 20, false);
    var d := ExpireAt(11, {});
    var k1 := Desk(map[], map[address := Active]);
    var k2 := Desk(map[1 := Dispute(address, 10, Open)], map[address := Quarantined]);
    var k3 := Desk(map[1 := Dispute(address, 10, Open), 2 := Dispute(address, 20, Open)], map[address := Quarantined]);
    assert [a, b, c, d][..3] == [a, b, c] && [a, b, c][..2] == [a, b] && [a, b][..1] == [a] && [a][..0] == [];
    assert Run(EmptyDesk, [a]) == k1;
    assert Run(EmptyDesk, [a, b]) == k2;
    assert Run(EmptyDesk, [a, b, c]) == k3;
    assert Lapsed(k3.disputes[1], 11);
    var k4 := After(k3, d);
    assert Pending(k4.disputes[2]) && k4.disputes[2].address == address;
  }

  /** A process that stops while opening a dispute leaves the source active; the output is frozen all the same. */
  lemma StoppedOpenLeavesSourceActive(address: string)
    requires address != ""
    ensures var k := Run(EmptyDesk, [SeedSource(address), OpenOn(1, address, 10, true)]);
            && address in k.sources && k.sources[address] == Active
            && 1 in k.disputes && Pending(k.disputes[1])
            && Frozen(k, address)
  {
    var a, b := SeedSource(address), OpenOn(1, address, 10, true);
    assert [a, b][..1] == [a] && [a][..0] == [];
    assert Run(EmptyDesk, [a]) == Desk(map[], map[address := Active]);
    var k := Run(EmptyDesk, [a, b]);
    assert Pending(k.disputes[1]) && k.disputes[1].address == address;
  }

  /** Blocks validated after a fraud finding never spend an output that a claim on the address created last, nor one
      of an address with a pending dispute. */
  lemma FraudIsNeverSpent(cfg: Config, env: Env, k: Desk, later: seq<Action>, path: seq<Block>, b: Block, n: nat,
                          o: Outpoint, p: Spot)
    requires forall address :: env.frozen(address) == Frozen(Run(k, later), address)
    requires BlockValid(cfg, env, path, b) && n < |b.transactions| && o in b.transactions[n].inputs
    requires CreatedLastAt(path + [b], o, p, Spot(|path|, n))
    ensures OnPath(path + [b], p)
    ensures var tx := At(path + [b], p);
            tx.kind == ClaimKind ==>
              !HasFraud(k, tx.claim.classicalAddress) && !HasPending(Run(k, later), tx.claim.classicalAddress)
  {
    hide BlockValid, CreatedLastAt;
    FrozenIsNotSpent(cfg, env, path, b, n, o, p);
    var address := At(path + [b], p).claim.classicalAddress;
    if HasFraud(k, address) { FraudIsFinal(k, later, address, 0, 0, 0); }
  }

  // ---------------------------------------------------------------- the two tables

  /** Sets the source of each listed dispute active, one after the other. */
  method Reactivate(disputes: DisputeTable, sources: SourceTable, ids: set<DisputeId>) returns (r: SourceTable)
    requires forall id | id in ids :: id in disputes && disputes[id].address in sources
    ensures r == map s | s in sources ::
                   if exists id | id in ids :: disputes[id].address == s then Active else sources[s]
  {
    r := sources;
    var rest := ids;
    while exists id :: id in rest
      invariant rest <= ids && r.Keys == sources.Keys
      invariant forall s | s in sources ::
                  r[s] == if exists id | id in ids - rest :: disputes[id].address == s then Active else sources[s]
      decreases |rest|
    {
      var id :| id in rest;
      r := r[disputes[id].address := Active];
      rest := rest - {id};
    }
  }

  class DisputeDesk {
    var disputes: DisputeTable
    var sources: SourceTable

    function View(): Desk
      reads this
    {
      Desk(disputes, sources)
    }

    ghost predicate Valid()
      reads this
    {
      Sourced(View())
    }

    constructor ()
      ensures Valid() && View() == EmptyDesk
    {
      disputes, sources := map[], map[];
    }

    method OpenDispute(id: DisputeId, address: string, height: int, window: int, stops: bool) returns (r: Result<int>)
      requires Valid()
      modifies this
      ensures Valid()
      ensures View() == After(old(View()), OpenOn(id, address, height + window, stops))
      ensures r.Ok? <==> Allowed(old(View()), OpenOn(id, address, height + window, stops))
      ensures r.Ok? ==> r.value == height + window
    {
      if address !in sources { return Rejected("migration source address is unknown"); }
      if id in disputes { return Rejected("dispute exists"); }
      disputes := disputes[id := Dispute(address, height + window, Open)];
      if !stops { sources := sources[address := Quarantined]; }
      return Ok(height + window);
    }

    method Submit(id: DisputeId, height: int, stops: bool) returns (r: Result<Dispute>)
      requires Valid()
      modifies this
      ensures Valid()
      ensures View() == After(old(View()), SubmitEvidence(id, height, stops))
      ensures r.Ok? <==> Allowed(old(View()), SubmitEvidence(id, height, stops))
    {
      if id !in disputes { return Rejected("dispute is unknown"); }
      if !Pending(disputes[id]) { return Rejected("evidence needs an open dispute"); }
      if height > disputes[id].deadline { return Rejected("challenge window has expired"); }
      disputes := disputes[id := disputes[id].(status := EvidenceSubmitted)];
      if !stops { sources := sources[disputes[id].address := Quarantined]; }
      return Ok(disputes[id]);
    }

    method ResolveDispute(id: DisputeId, fraud: bool, stops: bool) returns (r: Result<Dispute>)
      requires Valid()
      modifies this
      ensures Valid()
      ensures View() == After(old(View()), Resolve(id, fraud, stops))
      ensures r.Ok? <==> Allowed(old(View()), Resolve(id, fraud, stops))
    {
      if id !in disputes { return Rejected("dispute is unknown"); }
      if !Pending(disputes[id]) { return Rejected("only pending disputes can be resolved"); }
      disputes := disputes[id := disputes[id].(status := if fraud then ResolvedFraud else ResolvedValid)];
      if !stops { sources := sources[disputes[id].address := if fraud then Revoked else Active]; }
      return Ok(disputes[id]);
    }

    /** Ends every lapsed dispute, then reactivates their sources one by one, except those it no longer reaches. */
    method Expire(height: int, skipped: set<string>) returns (count: nat)
      requires Valid()
      modifies this
      ensures Valid() && View() == After(old(View()), ExpireAt(height, skipped))
      ensures count == |set id | id in old(disputes) && Lapsed(old(disputes)[id], height)|
    {
      var before := set id | id in disputes && Lapsed(disputes[id], height);
      count := |before|;
      SourcesKept(View(), ExpireAt(height, skipped));
      var listed := disputes;
      disputes := map id | id in disputes ::
          if Lapsed(disputes[id], height) then disputes[id].(status := Expired) else disputes[id];
      sources := Reactivate(listed, sources, set id | id in before && listed[id].address !in skipped);
      assert sources == old(AfterExpiry(View(), height, skipped)).sources;
    }

    /** Adds a source, or makes a known one active again. */
    method SeedMigrationSource(address: string) returns (r: Result<SourceStatus>)
      requires Valid()
      modifies this`sources
      ensures Valid() && View() == After(old(View()), SeedSource(address))
      ensures r.Ok? <==> Allowed(old(View()), SeedSource(address))
    {
      if address == "" { return Rejected("classical_address is required"); }
      sources := sources[address := Active];
      return Ok(Active);
    }

    method SetSourceStatus(address: string, status: SourceStatus) returns (r: Result<SourceStatus>)
      requires Valid()
      modifies this`sources
      ensures Valid() && View() == After(old(View()), SetSource(address, status))
      ensures r.Ok? <==> Allowed(old(View()), SetSource(address, status))
    {
      if address !in sources { return Rejected("migration source is unknown"); }
      sources := sources[address := status];
      return Ok(status);
    }

    /** What a spend of an output minted for the address is told. */
    method OutputFinality(address: string, originHeight: int, height: int, escrowBlocks: int) returns (f: Finality)
      ensures f == FinalityOf(View(), address, originHeight, height, escrowBlocks)
      ensures f == Unlocked
              <==> !Frozen(View(), address)
                   && height >= originHeight + (if escrowBlocks > 0 then escrowBlocks else 0)
    {
      var blocking, fraud := false, false;
      var rest := disputes.Keys;
      while exists id :: id in rest
        invariant rest <= disputes.Keys
        invariant blocking == exists id | id in disputes && id !in rest ::
              disputes[id].address == address && Pending(disputes[id])
        invariant fraud == exists id | id in disputes && id !in rest ::
                    disputes[id].address == address && disputes[id].status == ResolvedFraud
        decreases |rest|
      {
        var id :| id in rest;
        if disputes[id].address == address {
          blocking := blocking || Pending(disputes[id]);
          fraud := fraud || disputes[id].status == ResolvedFraud;
        }
        rest := rest - {id};
      }
      assert blocking == HasPending(View(), address) && fraud == HasFraud(View(), address);
      var revoked := address in sources && sources[address] == Revoked;
      var quarantined := address in sources && sources[address] == Quarantined;
      if fraud || revoked { return FraudFrozen; }
      if blocking || quarantined { return DisputeFrozen; }
      if height < originHeight + (if escrowBlocks > 0 then escrowBlocks else 0) { return EscrowLocked; }
      return Unlocked;
    }
  }
}
