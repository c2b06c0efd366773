/** Runs of the reservation protocol: any number of signers, any clock, any interleaving, any crash points.
    A crashed signer simply takes no further step; a step that raises changes nothing. */
module SigningRuns {
  import opened Results
  import opened WalletStore
  import Xmss

  // ---------------------------------------------------------------- any provider

  /** At most one reservation of a key is pending or needs recovery. */
  ghost predicate OneBlocker<M>(rs: Reservations<M>)
  {
    forall i, j | i in rs && j in rs && i != j ::
      !(Blocks(rs[i], rs[i].slot, rs[i].provider) && Blocks(rs[j], rs[i].slot, rs[i].provider))
  }

  lemma ExpireKeepsOneBlocker<M>(rs: Reservations<M>, now: int)
    requires OneBlocker(rs)
    ensures OneBlocker(ExpireAll(rs, now))
  {
  }

  lemma CloseKeepsOneBlocker<M>(rs: Reservations<M>, id: string, status: Status, now: int)
    requires OneBlocker(rs) && id in rs && status != Pending && status != RequiresRecovery
    ensures OneBlocker(Closed(rs, id, status, now))
  {
  }

  /** Whatever a provider's reserve function does, granting a reservation leaves at most one blocker per key. */
  lemma ReserveKeepsOneBlocker<S, M>(t: Tables<S, M>, slot: Slot, provider: string, reserve: S -> Option<(S, M)>,
                                         owner: string, id: string, now: int, ttl: int)
    requires OneBlocker(t.reservations) && Grants(t, slot, provider, reserve, id, now)
    ensures OneBlocker(Reserved(t, slot, provider, reserve, owner, id, now, ttl).reservations)
  {
    ExpireKeepsOneBlocker(t.reservations, now);
    var rs := ExpireAll(t.reservations, now);
    assert forall i | i in rs :: !Blocks(rs[i], slot, provider);
  }

  /** When a reservation awaits recovery, operator recovery is certain to reach it exactly when every other
      reservation of its key carries an earlier creation time: under a clock that ran backwards it is not. */
  lemma RecoveryReachesBlockerIff<M>(rs: Reservations<M>, id: string)
    requires OneBlocker(rs) && id in rs && rs[id].status == RequiresRecovery
    ensures (forall i | Newest(rs, i, rs[id].slot, rs[id].provider) :: rs[i].status == RequiresRecovery)
            <==> (forall i | i in rs && i != id && OfKey(rs[i], rs[id].slot, rs[id].provider) ::
                    rs[i].createdAt < rs[id].createdAt)
  {
    var slot, provider := rs[id].slot, rs[id].provider;
    if (forall i | Newest(rs, i, slot, provider) :: rs[i].status == RequiresRecovery) {
      var n := SomeNewest(rs, rs.Keys, slot, provider, id);
      assert Newest(rs, n, slot, provider);
      assert n == id;
      forall i | i in rs && i != id && OfKey(rs[i], slot, provider)
        ensures rs[i].createdAt < rs[id].createdAt
      {
        if rs[i].createdAt == rs[id].createdAt {
          assert Newest(rs, i, slot, provider);
        }
      }
    }
  }

  lemma {:induction false} SomeNewest<M>(rs: Reservations<M>, ids: set<string>, slot: Slot, provider: string,
                                         start: string)
    returns (n: string)
    requires ids <= rs.Keys && start in ids && OfKey(rs[start], slot, provider)
    ensures n in ids && OfKey(rs[n], slot, provider)
    ensures forall i | i in ids && OfKey(rs[i], slot, provider) :: rs[i].createdAt <= rs[n].createdAt
    decreases |ids|
  {
    n := start;
    if i :| i in ids && OfKey(rs[i], slot, provider) && rs[i].createdAt > rs[start].createdAt {
      n := SomeNewest(rs, ids - {start}, slot, provider, i);
    }
  }

  /** A reservation is granted exactly when the key is stored and has material left, the ID is new, and none of the
      key's reservations awaits recovery, is pending before its expiry, or lapsed without having advanced the key. */
  lemma GrantIff<S, M>(t: Tables<S, M>, slot: Slot, provider: string, reserve: S -> Option<(S, M)>, id: string,
                       now: int)
    ensures Grants(t, slot, provider, reserve, id, now)
            <==> && slot in t.keys && t.keys[slot].provider == provider && reserve(t.keys[slot].state).Some?
                 && id !in t.reservations
                 && forall i | i in t.reservations ::
                      var r := t.reservations[i];
                      r.slot == slot && r.provider == provider ==>
                        r.status != RequiresRecovery && (r.status == Pending ==> r.expiresAt <= now && r.advanced)
  {
    var rs := ExpireAll(t.reservations, now);
    forall i | i in t.reservations
      ensures Blocks(rs[i], slot, provider)
              <==> var r := t.reservations[i];
                   && r.slot == slot && r.provider == provider
                   && (r.status == RequiresRecovery || (r.status == Pending && !(r.expiresAt <= now && r.advanced)))
    {
    }
    if Blocked(rs, slot, provider) {
      var i :| i in rs && Blocks(rs[i], slot, provider);
      assert i in t.reservations;
    }
  }

  // ---------------------------------------------------------------- XMSS keys

  /** One committed reservation: which leaf it issued and the key state its signer received. */
  datatype Issue = Issue(id: string, slot: Slot, provider: string, leaf: nat, state: Xmss.XmssKey)

  datatype World = World(tables: Tables<Xmss.XmssKey, nat>, log: seq<Issue>)

  datatype Step =
    | Create(slot: Slot, provider: string, state: Xmss.XmssKey)
    | Reserve(slot: Slot, provider: string, owner: string, id: string, now: int)
    | Complete(slot: Slot, provider: string, owner: string, id: string, state: Xmss.XmssKey, now: int)
    | Fail(slot: Slot, provider: string, owner: string, id: string, now: int)
    | Refresh(now: int)
    | Recover(slot: Slot, provider: string, id: string, now: int)

  /** A signer saves only fresh keys with nothing issued, and completes only with the state its own reserve
      returned. */
  ghost predicate Honest(w: World, s: Step)
  {
    match s
    case Create(slot, _, state) => slot !in w.tables.keys && state.nextIndex == 0
    case Complete(_, _, _, id, state, _) => forall e | e in w.log && e.id == id :: e.state == state
    case _ => true
  }

  ghost function Next(w: World, s: Step, ttl: int): World
  {
    var t := w.tables;
    match s
    case Create(slot, provider, state) => World(Tables(t.keys[slot := KeyRow(provider, state)], t.reservations), w.log)
    case Reserve(slot, provider, owner, id, now) =>
      if Grants(t, slot, provider, Xmss.Reserver(), id, now) then
        var (next, leaf) := Xmss.Reserve(t.keys[slot].state).value;
        World(Reserved(t, slot, provider, Xmss.Reserver(), owner, id, now, ttl),
              w.log + [Issue(id, slot, provider, leaf, next)])
      else w
    case Complete(slot, provider, owner, id, state, now) =>
      if Held(t.reservations, id, slot, provider, owner) && t.reservations[id].status == Pending
      then World(CompletedTables(t, id, slot, provider, state, now), w.log) else w
    case Fail(slot, provider, owner, id, now) =>
      if Held(t.reservations, id, slot, provider, owner) && t.reservations[id].status == Pending
      then World(Tables(t.keys, Closed(t.reservations, id, Failed, now)), w.log) else w
    case Refresh(now) => World(Tables(t.keys, ExpireAll(t.reservations, now)), w.log)
    case Recover(slot, provider, id, now) =>
      var rs := ExpireAll(t.reservations, now);
      if Newest(rs, id, slot, provider) && rs[id].status == RequiresRecovery
      then World(Tables(t.keys, Closed(rs, id, Recovered, now)), w.log) else w
  }

  /** The leaves issued for one key, in order. */
  function Leaves(log: seq<Issue>, slot: Slot): seq<nat>
  {
    if log == [] then []
    else
      var e := log[|log| - 1];
      Leaves(log[..|log| - 1], slot) + if e.slot == slot then [e.leaf] else []
  }

  /** 0, 1, ..., n - 1. */
  function UpTo(n: nat): seq<nat> { seq(n, i => i) }

  /** The leaves issued for each key are exactly those below its next index, in order. */
  ghost predicate LeavesInOrder(w: World)
  {
    forall slot ::
      Leaves(w.log, slot) == UpTo(if slot in w.tables.keys then w.tables.keys[slot].state.nextIndex else 0)
  }

  /** Every reservation row belongs to a stored key, advanced it, and never needs recovery. */
  ghost predicate RowsSound(t: Tables<Xmss.XmssKey, nat>)
  {
    forall i | i in t.reservations ::
      && t.reservations[i].advanced && t.reservations[i].status != RequiresRecovery
      && HasKey(t.keys, t.reservations[i].slot, t.reservations[i].provider)
  }

  /** Issue IDs are unique and all in the table; a pending one returned the state that is stored now. */
  ghost predicate LogMatches(w: World)
  {
    && (forall e | e in w.log :: e.id in w.tables.reservations)
    && (forall i | i in w.tables.reservations :: exists e | e in w.log :: e.id == i)
    && forall e | e in w.log && w.tables.reservations[e.id].status == Pending ::
         w.tables.reservations[e.id].slot in w.tables.keys
         && e.state == w.tables.keys[w.tables.reservations[e.id].slot].state
  }

  ghost predicate Inv(w: World)
  {
    OneBlocker(w.tables.reservations) && LeavesInOrder(w) && RowsSound(w.tables) && LogMatches(w)
  }

  lemma LeavesSnoc(log: seq<Issue>, e: Issue, slot: Slot)
    ensures Leaves(log + [e], slot) == Leaves(log, slot) + if e.slot == slot then [e.leaf] else []
  {
    assert (log + [e])[..|log|] == log;
  }

  /** A completion writes back exactly the state that is already stored. */
  lemma CompleteRewritesStoredState(w: World, slot: Slot, provider: string, owner: string, id: string,
                                    state: Xmss.XmssKey, now: int)
    requires Inv(w) && Honest(w, Complete(slot, provider, owner, id, state, now))
    requires Held(w.tables.reservations, id, slot, provider, owner) && w.tables.reservations[id].status == Pending
    ensures CompletedTables(w.tables, id, slot, provider, state, now).keys == w.tables.keys
  {
    var e :| e in w.log && e.id == id;
  }

  lemma ReserveIssuesNextLeaf(w: World, slot: Slot, provider: string, owner: string, id: string, now: int, ttl: int)
    requires LeavesInOrder(w) && Grants(w.tables, slot, provider, Xmss.Reserver(), id, now)
    ensures LeavesInOrder(Next(w, Reserve(slot, provider, owner, id, now), ttl))
  {
    var (next, leaf) := Xmss.Reserve(w.tables.keys[slot].state).value;
    var u := Next(w, Reserve(slot, provider, owner, id, now), ttl);
    forall s
      ensures Leaves(u.log, s) == UpTo(if s in u.tables.keys then u.tables.keys[s].state.nextIndex else 0)
    {
      LeavesSnoc(w.log, Issue(id, slot, provider, leaf, next), s);
      assert UpTo(next.nextIndex) == UpTo(leaf) + [leaf];
    }
  }

  /** Nothing of the key is pending once a reservation of it is granted. */
  lemma GrantedKeyWasIdle(t: Tables<Xmss.XmssKey, nat>, slot: Slot, provider: string, id: string, now: int, i: string)
    requires RowsSound(t) && Grants(t, slot, provider, Xmss.Reserver(), id, now)
    requires i in t.reservations && ExpiredRow(t.reservations[i], now).status == Pending
    ensures t.reservations[i].slot != slot
  {
    assert !Blocks(ExpireAll(t.reservations, now)[i], slot, provider);
  }

  lemma ReserveKeepsRowsSound(w: World, slot: Slot, provider: string, owner: string, id: string, now: int, ttl: int)
    requires RowsSound(w.tables) && Grants(w.tables, slot, provider, Xmss.Reserver(), id, now)
    ensures RowsSound(Reserved(w.tables, slot, provider, Xmss.Reserver(), owner, id, now, ttl))
  {
    hide Blocked;
  }

  lemma GrantedNext(w: World, slot: Slot, provider: string, owner: string, id: string, now: int, ttl: int)
    requires Grants(w.tables, slot, provider, Xmss.Reserver(), id, now)
    ensures var (next, leaf) := Xmss.Reserve(w.tables.keys[slot].state).value;
            var u := Next(w, Reserve(slot, provider, owner, id, now), ttl);
            && u.tables == Reserved(w.tables, slot, provider, Xmss.Reserver(), owner, id, now, ttl)
            && u.log == w.log + [Issue(id, slot, provider, leaf, next)]
  {
  }

  /** The state stored for the key of each pending reservation is the one its issue returned. */
  ghost predicate PendingMatch(w: World)
  {
    forall e | e in w.log && e.id in w.tables.reservations && w.tables.reservations[e.id].status == Pending ::
      w.tables.reservations[e.id].slot in w.tables.keys
      && e.state == w.tables.keys[w.tables.reservations[e.id].slot].state
  }

  lemma ReserveKeepsPending(w: World, slot: Slot, provider: string, owner: string, id: string, now: int, ttl: int)
    requires RowsSound(w.tables) && LogMatches(w) && Grants(w.tables, slot, provider, Xmss.Reserver(), id, now)
    ensures PendingMatch(Next(w, Reserve(slot, provider, owner, id, now), ttl))
  {
    hide Grants;
    var t := w.tables;
    GrantedNext(w, slot, provider, owner, id, now, ttl);
    GrantFacts(t, slot, provider, owner, id, now, ttl);
    var u := Next(w, Reserve(slot, provider, owner, id, now), ttl);
    forall e | e in w.log && u.tables.reservations[e.id].status == Pending
      ensures u.tables.reservations[e.id].slot in u.tables.keys
      ensures e.state == u.tables.keys[u.tables.reservations[e.id].slot].state
    {
      GrantedKeyWasIdle(t, slot, provider, id, now, e.id);
    }
  }

  lemma GrantFacts(t: Tables<Xmss.XmssKey, nat>, slot: Slot, provider: string, owner: string, id: string, now: int,
                   ttl: int)
    requires Grants(t, slot, provider, Xmss.Reserver(), id, now)
    ensures slot in t.keys && id !in t.reservations
    ensures var (next, leaf) := Xmss.Reserve(t.keys[slot].state).value;
            var u := Reserved(t, slot, provider, Xmss.Reserver(), owner, id, now, ttl);
            && u.keys == t.keys[slot := KeyRow(provider, next)]
            && u.reservations.Keys == t.reservations.Keys + {id} && u.reservations[id].slot == slot
            && forall i | i in t.reservations :: u.reservations[i] == ExpiredRow(t.reservations[i], now)
  {
    hide Blocked;
  }

  lemma ReserveMatchesLog(w: World, slot: Slot, provider: string, owner: string, id: string, now: int, ttl: int)
    requires RowsSound(w.tables) && LogMatches(w) && Grants(w.tables, slot, provider, Xmss.Reserver(), id, now)
    ensures RowsSound(Next(w, Reserve(slot, provider, owner, id, now), ttl).tables)
    ensures LogMatches(Next(w, Reserve(slot, provider, owner, id, now), ttl))
  {
    hide Grants, RowsSound, Next;
    GrantedNext(w, slot, provider, owner, id, now, ttl);
    GrantFacts(w.tables, slot, provider, owner, id, now, ttl);
    ReserveKeepsRowsSound(w, slot, provider, owner, id, now, ttl);
    ReserveKeepsPending(w, slot, provider, owner, id, now, ttl);
    var u := Next(w, Reserve(slot, provider, owner, id, now), ttl);
    assert u.log[|w.log|].id == id;
    forall i | i in u.tables.reservations
      ensures exists e | e in u.log :: e.id == i
    {
      if i != id {
        var e :| e in w.log && e.id == i;
        assert e in u.log;
      }
    }
  }

  lemma ClosePreserves(w: World, id: string, status: Status, now: int)
    requires Inv(w) && id in w.tables.reservations && status != Pending && status != RequiresRecovery
    ensures Inv(World(Tables(w.tables.keys, Closed(w.tables.reservations, id, status, now)), w.log))
  {
    CloseKeepsOneBlocker(w.tables.reservations, id, status, now);
  }

  lemma ExpireKeepsRows(t: Tables<Xmss.XmssKey, nat>, now: int)
    requires RowsSound(t)
    ensures RowsSound(Tables(t.keys, ExpireAll(t.reservations, now)))
  {
  }

  lemma ExpireKeepsLog(w: World, now: int)
    requires LogMatches(w)
    ensures LogMatches(World(Tables(w.tables.keys, ExpireAll(w.tables.reservations, now)), w.log))
  {
  }

  lemma ExpirePreserves(w: World, now: int)
    requires Inv(w)
    ensures Inv(World(Tables(w.tables.keys, ExpireAll(w.tables.reservations, now)), w.log))
  {
    hide OneBlocker, RowsSound, LogMatches, ExpireAll;
    ExpireKeepsOneBlocker(w.tables.reservations, now);
    ExpireKeepsRows(w.tables, now);
    ExpireKeepsLog(w, now);
  }

  lemma StepKeepsInv(w: World, s: Step, ttl: int)
    requires Inv(w) && Honest(w, s)
    ensures Inv(Next(w, s, ttl))
  {
    match s
    case Create(slot, provider, state) =>
      CreatePreserves(w, slot, provider, state);
    case Reserve(slot, provider, owner, id, now) =>
      if Grants(w.tables, slot, provider, Xmss.Reserver(), id, now) {
        ReserveKeepsOneBlocker(w.tables, slot, provider, Xmss.Reserver(), owner, id, now, ttl);
        ReserveIssuesNextLeaf(w, slot, provider, owner, id, now, ttl);
        ReserveMatchesLog(w, slot, provider, owner, id, now, ttl);
      }
    case Complete(slot, provider, owner, id, state, now) =>
      if Held(w.tables.reservations, id, slot, provider, owner) && w.tables.reservations[id].status == Pending {
        CompleteRewritesStoredState(w, slot, provider, owner, id, state, now);
        ClosePreserves(w, id, Completed, now);
      }
    case Fail(slot, provider, owner, id, now) =>
      if Held(w.tables.reservations, id, slot, provider, owner) && w.tables.reservations[id].status == Pending {
        ClosePreserves(w, id, Failed, now);
      }
    case Refresh(now) =>
      ExpirePreserves(w, now);
    case Recover(slot, provider, id, now) =>
      ExpirePreserves(w, now);
  }

  lemma CreatePreserves(w: World, slot: Slot, provider: string, state: Xmss.XmssKey)
    requires Inv(w) && Honest(w, Create(slot, provider, state))
    ensures Inv(World(Tables(w.tables.keys[slot := KeyRow(provider, state)], w.tables.reservations), w.log))
  {
  }

  // ---------------------------------------------------------------- who may change a reservation

  /** The clock reading of a step that consults expiry. */
  predicate ExpiresAt(s: Step, deadline: int)
  {
    match s
    case Reserve(_, _, _, _, now) => deadline <= now
    case Refresh(now) => deadline <= now
    case Recover(_, _, _, now) => deadline <= now
    case _ => false
  }

  /** The step is the holder's own report on its reservation. */
  predicate ByHolder(s: Step, id: string, r: Reservation<nat>, completes: bool)
  {
    match s
    case Complete(slot, provider, owner, i, _, _) =>
      completes && i == id && slot == r.slot && provider == r.provider && owner == r.owner
    case Fail(slot, provider, owner, i, _) =>
      !completes && i == id && slot == r.slot && provider == r.provider && owner == r.owner
    case _ => false
  }

  /** No step drops a reservation or changes anything of it but its status and its closing time. A pending one is
      completed exactly by a completion of its own holder, fails exactly by the holder's report, and lapses only at or
      after its deadline; one that awaits recovery is at most recovered, and all others stay as they are. */
  lemma RowChanges(w: World, s: Step, ttl: int, id: string)
    requires id in w.tables.reservations
    ensures id in Next(w, s, ttl).tables.reservations
    ensures var before, after := w.tables.reservations[id], Next(w, s, ttl).tables.reservations[id];
            && after == before.(status := after.status, completedAt := after.completedAt)
            && (before.status == Pending ==>
                  && (after.status == Completed <==> ByHolder(s, id, before, true))
                  && (after.status == Failed <==> ByHolder(s, id, before, false))
                  && (after.status == Expired ==> before.advanced && ExpiresAt(s, before.expiresAt))
                  && (after.status == RequiresRecovery ==> !before.advanced && ExpiresAt(s, before.expiresAt))
                  && (after.status == Recovered ==> s.Recover? && s.id == id && ExpiresAt(s, before.expiresAt)))
            && (before.status == RequiresRecovery ==>
                  after == before || (after.status == Recovered && s.Recover? && s.id == id))
            && (before.status != Pending && before.status != RequiresRecovery ==> after == before)
  {
    hide Blocked, Newest;
  }

  /** The worlds a run of steps passes through. */
  ghost predicate IsRun(worlds: seq<World>, steps: seq<Step>, ttl: int)
  {
    && |worlds| == |steps| + 1
    && worlds[0] == World(Tables(map[], map[]), [])
    && forall i | 0 <= i < |steps| :: Honest(worlds[i], steps[i]) && worlds[i + 1] == Next(worlds[i], steps[i], ttl)
  }

  /** In every world of every run, the leaves issued for a key are exactly 0, ..., next_index - 1, each once, at
      most one of its reservations is pending, and none ever needs recovery. */
  lemma {:induction false} LeavesNeverReused(worlds: seq<World>, steps: seq<Step>, ttl: int, n: nat)
    requires IsRun(worlds, steps, ttl) && n < |worlds|
    ensures Inv(worlds[n])
    ensures forall slot | slot in worlds[n].tables.keys ::
              Leaves(worlds[n].log, slot) == UpTo(worlds[n].tables.keys[slot].state.nextIndex)
  {
    if n > 0 {
      LeavesNeverReused(worlds, steps, ttl, n - 1);
      StepKeepsInv(worlds[n - 1], steps[n - 1], ttl);
    }
  }
}
