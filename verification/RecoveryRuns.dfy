/** When operator recovery reaches the reservation that blocks a key, over runs under any provider.
    A provider whose reserve function does not advance the key leaves lapsed reservations requiring recovery. */
module RecoveryRuns {
  import opened Results
  import opened WalletStore
  import opened SigningRuns

  /** One database transaction; each reserve brings the provider's own reserve function. */
  datatype Move<!S, !M> =
    | Save(slot: Slot, provider: string, state: S)
    | Grab(slot: Slot, provider: string, reserve: S -> Option<(S, M)>, owner: string, id: string, now: int)
    | Finish(slot: Slot, provider: string, owner: string, id: string, state: S, now: int)
    | Abort(slot: Slot, provider: string, owner: string, id: string, now: int)
    | Lapse(now: int)
    | Heal(slot: Slot, provider: string, id: string, now: int)

  function Moved<S(==), M>(t: Tables<S, M>, m: Move<S, M>, ttl: int): Tables<S, M>
  {
    match m
    case Save(slot, provider, state) => Tables(t.keys[slot := KeyRow(provider, state)], t.reservations)
    case Grab(slot, provider, reserve, owner, id, now) =>
      if Grants(t, slot, provider, reserve, id, now)
        then Reserved(t, slot, provider, reserve, owner, id, now, ttl) else t
    case Finish(slot, provider, owner, id, state, now) =>
      if Held(t.reservations, id, slot, provider, owner) && t.reservations[id].status == Pending
      then CompletedTables(t, id, slot, provider, state, now) else t
    case Abort(slot, provider, owner, id, now) =>
      if Held(t.reservations, id, slot, provider, owner) && t.reservations[id].status == Pending
      then Tables(t.keys, Closed(t.reservations, id, Failed, now)) else t
    case Lapse(now) => Tables(t.keys, ExpireAll(t.reservations, now))
    case Heal(slot, provider, id, now) =>
      var rs := ExpireAll(t.reservations, now);
      if Newest(rs, id, slot, provider) && rs[id].status == RequiresRecovery
      then Tables(t.keys, Closed(rs, id, Recovered, now)) else t
  }

  function Played<S(==), M>(moves: seq<Move<S, M>>, ttl: int): Tables<S, M>
  {
    if moves == [] then Tables(map[], map[]) else Moved(Played(moves[..|moves| - 1], ttl), moves[|moves| - 1], ttl)
  }

  /** Every reserve of a key reads a later clock than each earlier reserve of that key. */
  predicate RisingReserves<S, M>(moves: seq<Move<S, M>>)
  {
    forall i, j | 0 <= i < j < |moves| && moves[i].Grab? && moves[j].Grab?
                  && moves[i].slot == moves[j].slot && moves[i].provider == moves[j].provider ::
      moves[i].now < moves[j].now
  }

  /** Some move of the run reserved the key with this clock reading. */
  predicate ReservedAt<S, M>(moves: seq<Move<S, M>>, slot: Slot, provider: string, at: int)
  {
    exists i | 0 <= i < |moves| ::
      moves[i].Grab? && moves[i].slot == slot && moves[i].provider == provider && moves[i].now == at
  }

  /** Each row tells when its key was reserved. */
  ghost predicate RowsReserved<S, M>(rs: Reservations<M>, moves: seq<Move<S, M>>)
  {
    forall i | i in rs :: ReservedAt(moves, rs[i].slot, rs[i].provider, rs[i].createdAt)
  }

  /** A blocking reservation was created after every other one of its key. */
  ghost predicate BlockerIsNewest<M>(rs: Reservations<M>)
  {
    forall i, j | i in rs && j in rs && i != j
                  && Blocks(rs[i], rs[i].slot, rs[i].provider) && OfKey(rs[j], rs[i].slot, rs[i].provider) ::
      rs[j].createdAt < rs[i].createdAt
  }

  lemma ReservedEarlier<S, M>(moves: seq<Move<S, M>>, m: Move<S, M>, slot: Slot, provider: string, at: int)
    requires ReservedAt(moves, slot, provider, at)
    ensures ReservedAt(moves + [m], slot, provider, at)
  {
    var i :| 0 <= i < |moves| && moves[i].Grab? && moves[i].slot == slot && moves[i].provider == provider
      && moves[i].now == at;
    assert (moves + [m])[i] == moves[i];
  }

  /** Closing or expiring rows keeps what they record of their creation, and makes no new blocker. */
  ghost predicate Derived<M>(rs: Reservations<M>, next: Reservations<M>)
  {
    && next.Keys == rs.Keys
    && forall i | i in rs ::
         && next[i].slot == rs[i].slot && next[i].provider == rs[i].provider && next[i].createdAt == rs[i].createdAt
         && (Blocks(next[i], next[i].slot, next[i].provider) ==> Blocks(rs[i], rs[i].slot, rs[i].provider))
  }

  lemma DerivedKeeps<S, M>(rs: Reservations<M>, next: Reservations<M>, moves: seq<Move<S, M>>, m: Move<S, M>)
    requires Derived(rs, next) && BlockerIsNewest(rs) && RowsReserved(rs, moves)
    ensures BlockerIsNewest(next) && RowsReserved(next, moves + [m])
  {
    forall i | i in next ensures ReservedAt(moves + [m], next[i].slot, next[i].provider, next[i].createdAt) {
      ReservedEarlier(moves, m, rs[i].slot, rs[i].provider, rs[i].createdAt);
    }
  }

  lemma ExpiryDerives<M>(rs: Reservations<M>, now: int)
    ensures Derived(rs, ExpireAll(rs, now))
  {
  }

  lemma ClosingDerives<M>(rs: Reservations<M>, id: string, status: Status, now: int)
    requires id in rs && status != Pending && status != RequiresRecovery
    ensures Derived(rs, Closed(rs, id, status, now))
  {
  }

  lemma DerivedTwice<M>(a: Reservations<M>, b: Reservations<M>, c: Reservations<M>)
    requires Derived(a, b) && Derived(b, c)
    ensures Derived(a, c)
  {
  }

  lemma NothingDerives<M>(rs: Reservations<M>)
    ensures Derived(rs, rs)
  {
  }

  /** Unless it grants a reservation, a move only closes or expires rows. */
  lemma MoveDerives<S, M>(t: Tables<S, M>, m: Move<S, M>, ttl: int)
    requires m.Grab? ==> !Grants(t, m.slot, m.provider, m.reserve, m.id, m.now)
    ensures Derived(t.reservations, Moved(t, m, ttl).reservations)
  {
    hide Derived, ExpireAll, Closed, Grants, OfKey;
    var rs := t.reservations;
    NothingDerives(rs);
    match m
    case Finish(slot, provider, owner, id, state, now) => if id in rs { ClosingDerives(rs, id, Completed, now); }
    case Abort(slot, provider, owner, id, now) => if id in rs { ClosingDerives(rs, id, Failed, now); }
    case Lapse(now) => ExpiryDerives(rs, now);
    case Heal(slot, provider, id, now) =>
      var expired := ExpireAll(rs, now);
      ExpiryDerives(rs, now);
      if id in expired {
        ClosingDerives(expired, id, Recovered, now);
        DerivedTwice(rs, expired, Closed(expired, id, Recovered, now));
      }
    case _ =>
  }

  /** Before a grant every row of the key is closed and was created earlier than the rising clock now reads. */
  lemma EarlierRows<S, M>(t: Tables<S, M>, m: Move<S, M>, moves: seq<Move<S, M>>, j: string)
    requires m.Grab? && Grants(t, m.slot, m.provider, m.reserve, m.id, m.now)
    requires RowsReserved(t.reservations, moves) && RisingReserves(moves + [m])
    requires j in t.reservations && OfKey(t.reservations[j], m.slot, m.provider)
    ensures j != m.id && t.reservations[j].createdAt < m.now
    ensures !Blocks(ExpiredRow(t.reservations[j], m.now), m.slot, m.provider)
  {
    var s := moves + [m];
    assert s[|moves|] == m;
    assert !Blocks(ExpireAll(t.reservations, m.now)[j], m.slot, m.provider);
    var i :| 0 <= i < |moves| && moves[i].Grab? && moves[i].slot == m.slot && moves[i].provider == m.provider
             && moves[i].now == t.reservations[j].createdAt;
    assert s[i] == moves[i];
  }

  lemma GrantAdds<S, M>(t: Tables<S, M>, m: Move<S, M>, ttl: int)
    requires m.Grab? && Grants(t, m.slot, m.provider, m.reserve, m.id, m.now)
    ensures var next := Moved(t, m, ttl).reservations;
            && next.Keys == t.reservations.Keys + {m.id} && m.id !in t.reservations
            && next[m.id].slot == m.slot && next[m.id].provider == m.provider && next[m.id].createdAt == m.now
            && forall j | j in t.reservations :: next[j] == ExpiredRow(t.reservations[j], m.now)
  {
    hide Blocked;
  }

  lemma GrantKeeps<S, M>(t: Tables<S, M>, m: Move<S, M>, ttl: int, moves: seq<Move<S, M>>)
    requires m.Grab? && Grants(t, m.slot, m.provider, m.reserve, m.id, m.now)
    requires BlockerIsNewest(t.reservations) && RowsReserved(t.reservations, moves) && RisingReserves(moves + [m])
    ensures BlockerIsNewest(Moved(t, m, ttl).reservations) && RowsReserved(Moved(t, m, ttl).reservations, moves + [m])
  {
    hide Moved, Grants, RisingReserves, ReservedAt;
    var expired, next := ExpireAll(t.reservations, m.now), Moved(t, m, ttl).reservations;
    ExpiryDerives(t.reservations, m.now);
    DerivedKeeps(t.reservations, expired, moves, m);
    GrantAdds(t, m, ttl);
    LastReserve(moves, m);
    forall j | j in expired && OfKey(expired[j], m.slot, m.provider)
      ensures expired[j].createdAt < m.now && !Blocks(expired[j], m.slot, m.provider)
    {
      EarlierRows(t, m, moves, j);
    }
    assert forall j | j in expired :: next[j] == expired[j];
  }

  lemma LastReserve<S, M>(moves: seq<Move<S, M>>, m: Move<S, M>)
    requires m.Grab?
    ensures ReservedAt(moves + [m], m.slot, m.provider, m.now)
  {
    assert (moves + [m])[|moves|] == m;
  }

  lemma RisingPrefix<S, M>(moves: seq<Move<S, M>>)
    requires moves != [] && RisingReserves(moves)
    ensures RisingReserves(moves[..|moves| - 1])
  {
  }

  lemma {:induction false} RunKeepsNewest<S, M>(moves: seq<Move<S, M>>, ttl: int)
    requires RisingReserves(moves)
    ensures BlockerIsNewest(Played(moves, ttl).reservations) && RowsReserved(Played(moves, ttl).reservations, moves)
  {
    hide BlockerIsNewest, RowsReserved, RisingReserves, Moved, Derived;
    if moves == [] {
      NothingReserved<S, M>();
    } else {
      var front, m := moves[..|moves| - 1], moves[|moves| - 1];
      var t := Played(front, ttl);
      RisingPrefix(moves);
      RunKeepsNewest(front, ttl);
      assert front + [m] == moves;
      if m.Grab? && Grants(t, m.slot, m.provider, m.reserve, m.id, m.now) {
        GrantKeeps(t, m, ttl, front);
      } else {
        MoveDerives(t, m, ttl);
        DerivedKeeps(t.reservations, Moved(t, m, ttl).reservations, front, m);
      }
    }
  }

  lemma NothingReserved<S, M>()
    ensures BlockerIsNewest<M>(map[]) && RowsReserved<S, M>(map[], [])
  {
  }

  lemma {:induction false} RunKeepsOneBlocker<S, M>(moves: seq<Move<S, M>>, ttl: int)
    ensures OneBlocker(Played(moves, ttl).reservations)
  {
    hide OneBlocker;
    if moves == [] {
      assert OneBlocker<M>(map[]) by { NoBlocker<M>(); }
    } else {
      var front, m := moves[..|moves| - 1], moves[|moves| - 1];
      RunKeepsOneBlocker(front, ttl);
      MoveKeepsOneBlocker(Played(front, ttl), m, ttl);
    }
  }

  lemma NoBlocker<M>()
    ensures OneBlocker<M>(map[])
  {
  }

  lemma MoveKeepsOneBlocker<S, M>(t: Tables<S, M>, m: Move<S, M>, ttl: int)
    requires OneBlocker(t.reservations)
    ensures OneBlocker(Moved(t, m, ttl).reservations)
  {
    if m.Grab? && Grants(t, m.slot, m.provider, m.reserve, m.id, m.now) {
      ReserveKeepsOneBlocker(t, m.slot, m.provider, m.reserve, m.owner, m.id, m.now, ttl);
    } else {
      MoveDerives(t, m, ttl);
    }
  }

  /** Recovery of the key acts on this reservation, whichever of the newest rows the query returns. */
  ghost predicate RecoveryCertain<M>(rs: Reservations<M>, id: string)
    requires id in rs
  {
    forall i | Newest(rs, i, rs[id].slot, rs[id].provider) :: rs[i].status == RequiresRecovery
  }

  /** When the clock rises from each reserve of a key to the next, recovery always reaches the reservation that
      requires it: in every run, under any provider. */
  lemma RisingClockReachesBlocker<S, M>(moves: seq<Move<S, M>>, ttl: int, id: string)
    requires RisingReserves(moves)
    requires id in Played(moves, ttl).reservations && Played(moves, ttl).reservations[id].status == RequiresRecovery
    ensures RecoveryCertain(Played(moves, ttl).reservations, id)
  {
    hide Played, RisingReserves;
    RunKeepsNewest(moves, ttl);
    RunKeepsOneBlocker(moves, ttl);
    RecoveryReachesBlockerIff(Played(moves, ttl).reservations, id);
  }

  // ---------------------------------------------------------------- the smallest runs that miss

  const KEY := Slot("wallet", "address")

  /** A key that does not advance is reserved at `first`, released, reserved again at `second`, and left to lapse. */
  function TwoReserves(first: int, second: int, ttl: int): seq<Move<int, int>>
  {
    var reserve := (state: int) => Some((state, 0));
    [Save(KEY, "p", 0), Grab(KEY, "p", reserve, "o", "a", first), Abort(KEY, "p", "o", "a", first),
     Grab(KEY, "p", reserve, "o", "b", second), Lapse(second + ttl)]
  }

  function RowA(first: int, ttl: int): Reservation<int>
  {
    Reservation(KEY, "p", "o", 0, false, Failed, first, first + ttl, Some(first))
  }

  function RowB(second: int, ttl: int): Reservation<int>
  {
    Reservation(KEY, "p", "o", 0, false, RequiresRecovery, second, second + ttl, Some(second + ttl))
  }

  lemma PlayedSnoc(moves: seq<Move<int, int>>, m: Move<int, int>, ttl: int)
    ensures Played(moves + [m], ttl) == Moved(Played(moves, ttl), m, ttl)
  {
    assert (moves + [m])[..|moves|] == moves;
  }

  /** Nothing blocks the key, so it is granted without advancing its state. */
  lemma GrabMoves(rs: Reservations<int>, id: string, now: int, ttl: int)
    requires id !in rs && forall i | i in rs :: rs[i].status == Failed
    ensures var keys := map[KEY := KeyRow("p", 0)];
            Moved(Tables(keys, rs), Grab(KEY, "p", (state: int) => Some((state, 0)), "o", id, now), ttl)
            == Tables(keys, rs[id := Reservation(KEY, "p", "o", 0, false, Pending, now, now + ttl, None)])
  {
    assert ExpireAll(rs, now) == rs;
  }

  lemma TwoReservesEnd(first: int, second: int, ttl: int)
    ensures Played(TwoReserves(first, second, ttl), ttl).reservations
            == map["a" := RowA(first, ttl), "b" := RowB(second, ttl)]
  {
    hide Grants, Reserved, Played;
    var reserve := (state: int) => Some((state, 0));
    var keys := map[KEY := KeyRow("p", 0)];
    var a, b := RowA(first, ttl), RowB(second, ttl);
    var s1: seq<Move<int, int>> := [Save(KEY, "p", 0)];
    var s2 := s1 + [Grab(KEY, "p", reserve, "o", "a", first)];
    var s3 := s2 + [Abort(KEY, "p", "o", "a", first)];
    var s4 := s3 + [Grab(KEY, "p", reserve, "o", "b", second)];
    assert TwoReserves(first, second, ttl) == s4 + [Lapse(second + ttl)];
    PlayedOne(ttl);
    PlayedSnoc(s1, Grab(KEY, "p", reserve, "o", "a", first), ttl);
    GrabMoves(map[], "a", first, ttl);
    PlayedSnoc(s2, Abort(KEY, "p", "o", "a", first), ttl);
    assert Played(s3, ttl) == Tables(keys, map["a" := a]);
    PlayedSnoc(s3, Grab(KEY, "p", reserve, "o", "b", second), ttl);
    GrabMoves(map["a" := a], "b", second, ttl);
    PlayedSnoc(s4, Lapse(second + ttl), ttl);
    assert ExpiredRow(b.(status := Pending, completedAt := None), second + ttl) == b;
  }

  lemma PlayedOne(ttl: int)
    ensures Played<int, int>([Save(KEY, "p", 0)], ttl) == Tables(map[KEY := KeyRow("p", 0)], map[])
  {
    var s: seq<Move<int, int>> := [Save(KEY, "p", 0)];
    assert s[..0] == [];
  }

  /** In that run recovery is certain to reach the blocked reservation exactly when the second reserve read a later
      clock than the first: an equal reading is enough to miss it. */
  lemma TwoReservesIff(first: int, second: int, ttl: int)
    ensures var rs := Played(TwoReserves(first, second, ttl), ttl).reservations;
            && "b" in rs && rs["b"].status == RequiresRecovery
            && (RecoveryCertain(rs, "b") <==> first < second)
  {
    TwoReservesEnd(first, second, ttl);
    var rs := Played(TwoReserves(first, second, ttl), ttl).reservations;
    if first >= second { assert Newest(rs, "a", KEY, "p"); }
  }
}
