/** The wallet database: key rows, signing reservations, and the transactions that act on them.
    Each public operation is one immediate transaction, so it either takes its whole effect or none. */
module WalletStore {
  import opened Results

  datatype Status = Pending | Completed | Failed | Expired | RequiresRecovery | Recovered

  datatype Slot = Slot(keyLabel: string, address: string)

  datatype KeyRow<S> = KeyRow(provider: string, state: S)

  datatype Reservation<M> = Reservation(
    slot: Slot, provider: string, owner: string, material: M, advanced: bool,
    status: Status, createdAt: int, expiresAt: int, completedAt: Option<int>)

  type Reservations<M> = map<string, Reservation<M>>

  datatype Tables<S, M> = Tables(keys: map<Slot, KeyRow<S>>, reservations: Reservations<M>)

  // ---------------------------------------------------------------- the transactions as functions

  function ExpiredRow<M>(r: Reservation<M>, now: int): Reservation<M>
  {
    if r.status == Pending && r.expiresAt <= now
    then r.(status := if r.advanced then Expired else RequiresRecovery, completedAt := Some(now))
    else r
  }

  function ExpireAll<M>(rs: Reservations<M>, now: int): Reservations<M>
  {
    map i | i in rs :: ExpiredRow(rs[i], now)
  }

  predicate OfKey<M>(r: Reservation<M>, slot: Slot, provider: string)
  {
    r.slot == slot && r.provider == provider
  }

  predicate Blocks<M>(r: Reservation<M>, slot: Slot, provider: string)
  {
    OfKey(r, slot, provider) && (r.status == Pending || r.status == RequiresRecovery)
  }

  predicate Blocked<M>(rs: Reservations<M>, slot: Slot, provider: string)
  {
    exists i | i in rs :: Blocks(rs[i], slot, provider)
  }

  predicate HasKey<S>(keys: map<Slot, KeyRow<S>>, slot: Slot, provider: string)
  {
    slot in keys && keys[slot].provider == provider
  }

  /** When a reservation is granted: a stored key that nothing blocks once lapsed ones have expired, material
      left to reserve, and an unused reservation ID. */
  predicate Grants<S, M>(t: Tables<S, M>, slot: Slot, provider: string, reserve: S -> Option<(S, M)>, id: string,
                         now: int)
  {
    && !Blocked(ExpireAll(t.reservations, now), slot, provider)
    && HasKey(t.keys, slot, provider)
    && reserve(t.keys[slot].state).Some?
    && id !in t.reservations
  }

  function Reserved<S(==), M>(t: Tables<S, M>, slot: Slot, provider: string, reserve: S -> Option<(S, M)>,
                              owner: string, id: string, now: int, ttl: int): Tables<S, M>
    requires Grants(t, slot, provider, reserve, id, now)
  {
    var (next, material) := reserve(t.keys[slot].state).value;
    Tables(t.keys[slot := KeyRow(provider, next)],
           ExpireAll(t.reservations, now)[id :=
             Reservation(slot, provider, owner, material, next != t.keys[slot].state, Pending, now, now + ttl, None)])
  }

  predicate Held<M>(rs: Reservations<M>, id: string, slot: Slot, provider: string, owner: string)
  {
    id in rs && OfKey(rs[id], slot, provider) && rs[id].owner == owner
  }

  function Closed<M>(rs: Reservations<M>, id: string, status: Status, now: int): Reservations<M>
    requires id in rs
  {
    rs[id := rs[id].(status := status, completedAt := Some(now))]
  }

  function CompletedTables<S, M>(t: Tables<S, M>, id: string, slot: Slot, provider: string, state: S,
                                 now: int): Tables<S, M>
    requires id in t.reservations
  {
    Tables(if HasKey(t.keys, slot, provider) then t.keys[slot := KeyRow(provider, state)] else t.keys,
           Closed(t.reservations, id, Completed, now))
  }

  /** A newest reservation of a key by its recorded creation time. */
  predicate Newest<M>(rs: Reservations<M>, id: string, slot: Slot, provider: string)
  {
    && id in rs && OfKey(rs[id], slot, provider)
    && forall i | i in rs && OfKey(rs[i], slot, provider) :: rs[i].createdAt <= rs[id].createdAt
  }

  // ---------------------------------------------------------------- the database

  class WalletDatabase<S(==), M> {
    var keys: map<Slot, KeyRow<S>>
    var reservations: Reservations<M>
    const ttl: int

    ghost function View(): Tables<S, M>
      reads this
    {
      Tables(keys, reservations)
    }

    constructor (ttl: int)
      ensures View() == Tables(map[], map[]) && this.ttl == ttl
    {
      this.ttl, keys, reservations := ttl, map[], map[];
    }

    method SaveKey(slot: Slot, provider: string, state: S)
      modifies this`keys
      ensures keys == old(keys)[slot := KeyRow(provider, state)]
    {
      keys := keys[slot := KeyRow(provider, state)];
    }

    method Expire(now: int)
      modifies this`reservations
      ensures reservations == ExpireAll(old(reservations), now)
      ensures reservations.Keys == old(reservations).Keys
      ensures forall i | i in reservations :: !(reservations[i].status == Pending && reservations[i].expiresAt <= now)
      ensures forall i | i in old(reservations) && old(reservations)[i].status == Pending
                         && old(reservations)[i].expiresAt <= now ::
                reservations[i] == old(reservations)[i].(
                  completedAt := Some(now),
                  status := if old(reservations)[i].advanced then Expired else RequiresRecovery)
      ensures forall i | i in old(reservations)
                         && !(old(reservations)[i].status == Pending && old(reservations)[i].expiresAt <= now) ::
                reservations[i] == old(reservations)[i]
    {
      reservations := map i | i in reservations :: ExpiredRow(reservations[i], now);
    }

    /** The newest of the rows that `pick` selects, if any. */
    static method SelectNewest(rs: Reservations<M>, pick: Reservation<M> -> bool) returns (r: Option<string>)
      ensures r.None? <==> forall i | i in rs :: !pick(rs[i])
      ensures r.Some? ==> r.value in rs && pick(rs[r.value])
                          && forall i | i in rs && pick(rs[i]) :: rs[i].createdAt <= rs[r.value].createdAt
    {
      r := None;
      var rest := rs.Keys;
      while exists i :: i in rest
        invariant rest <= rs.Keys
        invariant r.None? ==> forall i | i in rs && i !in rest :: !pick(rs[i])
        invariant r.Some? ==> r.value in rs && pick(rs[r.value])
                              && forall i | i in rs && i !in rest && pick(rs[i]) ::
                                  rs[i].createdAt <= rs[r.value].createdAt
        decreases |rest|
      {
        var i :| i in rest;
        if pick(rs[i]) && (r.None? || rs[r.value].createdAt < rs[i].createdAt) {
          r := Some(i);
        }
        rest := rest - {i};
      }
    }

    /** Refuses a key whose newest blocking reservation needs recovery or has not lapsed. */
    method KeyIsAvailable(slot: Slot, provider: string, now: int) returns (ok: bool)
      requires forall i | i in reservations :: reservations[i].status == Pending ==> reservations[i].expiresAt > now
      ensures ok == !Blocked(reservations, slot, provider)
    {
      var newest := SelectNewest(reservations, r => Blocks(r, slot, provider));
      if newest.None? { return true; }
      var row := reservations[newest.value];
      if row.status == RequiresRecovery { return false; }
      return row.expiresAt <= now;
    }

    method Reserve(slot: Slot, provider: string, reserve: S -> Option<(S, M)>, owner: string, id: string, now: int)
      returns (r: Result<(S, M)>)
      modifies this
      ensures r.Ok? == Grants(old(View()), slot, provider, reserve, id, now)
      ensures r.Ok? ==> Some(r.value) == reserve(old(keys)[slot].state)
                        && View() == Reserved(old(View()), slot, provider, reserve, owner, id, now, ttl)
      ensures r.Rejected? ==> View() == old(View())
    {
      var savedKeys, savedReservations := keys, reservations;
      Expire(now);
      var available := KeyIsAvailable(slot, provider, now);
      if !available {
        keys, reservations := savedKeys, savedReservations;
        return Rejected("key has an active or interrupted reservation");
      }
      if slot !in keys || keys[slot].provider != provider || reserve(keys[slot].state).None? || id in reservations {
        keys, reservations := savedKeys, savedReservations;
        return Rejected("no key state, no material left, or reservation ID in use");
      }
      var (next, material) := reserve(keys[slot].state).value;
      var advanced := next != keys[slot].state;
      keys := keys[slot := KeyRow(provider, next)];
      reservations := reservations[id :=
        Reservation(slot, provider, owner, material, advanced, Pending, now, now + ttl, None)];
      return Ok((next, material));
    }

    method Complete(slot: Slot, provider: string, id: string, state: S, owner: string, now: int) returns (ok: bool)
      modifies this
      ensures ok == (Held(old(reservations), id, slot, provider, owner) && old(reservations)[id].status == Pending)
      ensures View() == if ok then CompletedTables(old(View()), id, slot, provider, state, now) else old(View())
    {
      if id !in reservations || !OfKey(reservations[id], slot, provider) { return false; }
      if reservations[id].owner != owner { return false; }
      if reservations[id].status != Pending { return false; }
      if slot in keys && keys[slot].provider == provider {
        keys := keys[slot := KeyRow(provider, state)];
      }
      reservations := reservations[id := reservations[id].(status := Completed, completedAt := Some(now))];
      return true;
    }

    method Fail(slot: Slot, provider: string, id: string, owner: string, now: int) returns (ok: bool)
      modifies this`reservations
      ensures ok == Held(old(reservations), id, slot, provider, owner)
      ensures reservations == if ok && old(reservations)[id].status == Pending
                              then Closed(old(reservations), id, Failed, now) else old(reservations)
    {
      if id !in reservations || !OfKey(reservations[id], slot, provider) { return false; }
      if reservations[id].owner != owner { return false; }
      if reservations[id].status != Pending { return true; }
      reservations := reservations[id := reservations[id].(status := Failed, completedAt := Some(now))];
      return true;
    }

    /** Operator recovery acts on the newest reservation of the key, by recorded creation time. */
    method Recover(slot: Slot, provider: string, now: int) returns (r: Result<string>)
      modifies this`reservations
      ensures var rs := ExpireAll(old(reservations), now);
              if r.Ok? then Newest(rs, r.value, slot, provider) && rs[r.value].status == RequiresRecovery
                            && reservations == Closed(rs, r.value, Recovered, now)
              else reservations == old(reservations)
                   && ((forall i | i in rs :: !OfKey(rs[i], slot, provider))
                       || exists i :: Newest(rs, i, slot, provider) && rs[i].status != RequiresRecovery)
    {
      var saved := reservations;
      Expire(now);
      var newest := SelectNewest(reservations, r => OfKey(r, slot, provider));
      if newest.None? {
        reservations := saved;
        return Rejected("key has no reservation history");
      }
      var id := newest.value;
      assert Newest(reservations, id, slot, provider);
      if reservations[id].status != RequiresRecovery {
        reservations := saved;
        return Rejected("key does not require recovery");
      }
      reservations := reservations[id := reservations[id].(status := Recovered, completedAt := Some(now))];
      return Ok(id);
    }
  }
}
