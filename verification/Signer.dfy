/** The wallet signer: it reserves one leaf in the wallet database, signs with it, and closes the reservation. */
module Signer {
  import opened Results
  import Lamport
  import opened Xmss
  import opened WalletStore
  import SigningRuns

  datatype SigningResult = SigningResult(publicKey: PublicKey, signature: Signature, reservationId: string)

  /** Every key state in the database is a complete key tree. */
  ghost predicate StoredKeysSound(h: Lamport.Hashes, keys: map<Slot, KeyRow<XmssKey>>)
  {
    forall s | s in keys :: Sound(h, keys[s].state) && keys[s].state.height <= 64
  }

  /** What a granted reservation leaves behind, and what closing it does. */
  lemma GrantedThenClosed(t: Tables<XmssKey, nat>, slot: Slot, provider: string, owner: string, id: string, now: int,
                          ttl: int, status: Status, later: int)
    requires Grants(t, slot, provider, Xmss.Reserver(), id, now) && status != Pending && status != RequiresRecovery
    ensures var u := Reserved(t, slot, provider, Xmss.Reserver(), owner, id, now, ttl);
            var (next, leaf) := Xmss.Reserve(t.keys[slot].state).value;
            && u.keys == t.keys[slot := KeyRow(provider, next)]
            && Held(u.reservations, id, slot, provider, owner) && u.reservations[id].status == Pending
            && CompletedTables(u, id, slot, provider, next, later).keys == u.keys
            && var rs := Closed(u.reservations, id, status, later);
               id in rs && rs[id].status == status && rs[id].material == leaf && !Blocked(rs, slot, provider)
  {
    var u := Reserved(t, slot, provider, Xmss.Reserver(), owner, id, now, ttl);
    var rs := Closed(u.reservations, id, status, later);
    forall i | i in rs ensures !Blocks(rs[i], slot, provider) {
      if i != id { assert !Blocks(ExpireAll(t.reservations, now)[i], slot, provider); }
    }
  }

  lemma StoredKeyStaysSound(h: Lamport.Hashes, keys: map<Slot, KeyRow<XmssKey>>, slot: Slot, provider: string,
                            next: XmssKey)
    requires StoredKeysSound(h, keys) && Sound(h, next) && next.height <= 64
    ensures StoredKeysSound(h, keys[slot := KeyRow(provider, next)])
  {
  }

  // ---------------------------------------------------------------- one signing among other signers' steps

  ghost function After(w: SigningRuns.World, steps: seq<SigningRuns.Step>, ttl: int): SigningRuns.World
  {
    if steps == [] then w else SigningRuns.Next(After(w, steps[..|steps| - 1], ttl), steps[|steps| - 1], ttl)
  }

  ghost predicate HonestSteps(w: SigningRuns.World, steps: seq<SigningRuns.Step>, ttl: int)
  {
    steps != [] ==>
      && HonestSteps(w, steps[..|steps| - 1], ttl)
      && SigningRuns.Honest(After(w, steps[..|steps| - 1], ttl), steps[|steps| - 1])
  }

  /** The log knows a reservation, and every entry of it returned this state. */
  ghost predicate Issued(w: SigningRuns.World, id: string, state: XmssKey)
  {
    id in w.tables.reservations && forall e | e in w.log && e.id == id :: e.state == state
  }

  lemma IssuedStays(w: SigningRuns.World, s: SigningRuns.Step, ttl: int, id: string, state: XmssKey)
    requires Issued(w, id, state)
    ensures Issued(SigningRuns.Next(w, s, ttl), id, state)
  {
    hide Blocked;
  }

  lemma {:induction false} HonestAfter(w: SigningRuns.World, steps: seq<SigningRuns.Step>, ttl: int, id: string,
                                       state: XmssKey)
    requires SigningRuns.Inv(w) && HonestSteps(w, steps, ttl) && Issued(w, id, state)
    ensures SigningRuns.Inv(After(w, steps, ttl)) && Issued(After(w, steps, ttl), id, state)
  {
    hide SigningRuns.Inv, SigningRuns.Honest, SigningRuns.Next, Issued;
    if steps != [] {
      var before := After(w, steps[..|steps| - 1], ttl);
      HonestAfter(w, steps[..|steps| - 1], ttl, id, state);
      SigningRuns.StepKeepsInv(before, steps[|steps| - 1], ttl);
      IssuedStays(before, steps[|steps| - 1], ttl, id, state);
    }
  }

  /** A signer's reserve and its completion are honest steps whatever honest steps of others come in between, so the
      guarantees of all runs hold through it; whether the completion still finds the reservation pending or not. */
  lemma SigningIsHonest(w: SigningRuns.World, slot: Slot, provider: string, owner: string, id: string, now: int,
                        ttl: int, others: seq<SigningRuns.Step>, later: int)
    requires SigningRuns.Inv(w) && Grants(w.tables, slot, provider, Xmss.Reserver(), id, now)
    requires HonestSteps(SigningRuns.Next(w, SigningRuns.Reserve(slot, provider, owner, id, now), ttl), others, ttl)
    ensures var first := SigningRuns.Reserve(slot, provider, owner, id, now);
            var between := After(SigningRuns.Next(w, first, ttl), others, ttl);
            var state := Xmss.Reserve(w.tables.keys[slot].state).value.0;
            var last := SigningRuns.Complete(slot, provider, owner, id, state, later);
            && SigningRuns.Honest(w, first) && SigningRuns.Honest(between, last)
            && SigningRuns.Inv(between) && SigningRuns.Inv(SigningRuns.Next(between, last, ttl))
  {
    hide SigningRuns.Inv, SigningRuns.Next, HonestSteps;
    var first := SigningRuns.Reserve(slot, provider, owner, id, now);
    var state := Xmss.Reserve(w.tables.keys[slot].state).value.0;
    SigningRuns.StepKeepsInv(w, first, ttl);
    GrantIssues(w, slot, provider, owner, id, now, ttl);
    HonestAfter(SigningRuns.Next(w, first, ttl), others, ttl, id, state);
    SigningRuns.StepKeepsInv(After(SigningRuns.Next(w, first, ttl), others, ttl),
                             SigningRuns.Complete(slot, provider, owner, id, state, later), ttl);
  }

  lemma GrantIssues(w: SigningRuns.World, slot: Slot, provider: string, owner: string, id: string, now: int, ttl: int)
    requires SigningRuns.Inv(w) && Grants(w.tables, slot, provider, Xmss.Reserver(), id, now)
    ensures Issued(SigningRuns.Next(w, SigningRuns.Reserve(slot, provider, owner, id, now), ttl), id,
                   Xmss.Reserve(w.tables.keys[slot].state).value.0)
  {
    SigningRuns.GrantedNext(w, slot, provider, owner, id, now, ttl);
    SigningRuns.GrantFacts(w.tables, slot, provider, owner, id, now, ttl);
  }

  class LocalSigner {
    const keyLabel: string
    const provider: string
    const owner: string
    const db: WalletDatabase<XmssKey, nat>
    var keys: map<string, XmssKey>

    constructor (keyLabel: string, provider: string, owner: string, db: WalletDatabase<XmssKey, nat>)
      ensures this.keyLabel == keyLabel && this.provider == provider && this.owner == owner && this.db == db
      ensures keys == map[]
    {
      this.keyLabel, this.provider, this.owner, this.db, keys := keyLabel, provider, owner, db, map[];
    }

    /** Adds a freshly generated key with nothing issued, and stores it. */
    method CreateAddress(h: Lamport.Hashes, address: string, key: XmssKey)
      requires Sound(h, key) && key.height <= 64 && key.nextIndex == 0 && StoredKeysSound(h, db.keys)
      modifies this, db
      ensures keys == old(keys)[address := key]
      ensures db.keys == old(db.keys)[Slot(keyLabel, address) := KeyRow(provider, key)]
      ensures db.reservations == old(db.reservations) && StoredKeysSound(h, db.keys)
    {
      keys := keys[address := key];
      db.SaveKey(Slot(keyLabel, address), provider, key);
    }

    /** Replaces the signer's copy of a key by the advanced state that the database now holds. */
    method ReserveKeyUsage(address: string, id: string, now: int) returns (r: Result<(XmssKey, nat)>)
      modifies this, db
      ensures r.Ok? == (address in old(keys)
                        && Grants(old(db.View()), Slot(keyLabel, address), provider, Xmss.Reserver(), id, now))
      ensures r.Ok? ==> db.View() == Reserved(old(db.View()), Slot(keyLabel, address), provider, Xmss.Reserver(),
                                              owner, id, now, db.ttl)
                        && Some(r.value) == Xmss.Reserve(old(db.keys)[Slot(keyLabel, address)].state)
                        && keys == old(keys)[address := r.value.0]
      ensures r.Rejected? ==> db.View() == old(db.View()) && keys == old(keys)
    {
      if address !in keys { return Rejected("address is not controlled by this signer"); }
      r := db.Reserve(Slot(keyLabel, address), provider, Xmss.Reserver(), owner, id, now);
      if r.Ok? { keys := keys[address := r.value.0]; }
    }

    /** The second half of signing, whatever happened to the database since the reserve: a reservation that is still
        pending is completed, or fails when signing raises; one that others closed or expired is left alone and the
        signature is withheld. The tables are those after the corresponding step of a run. */
    method FinishSigning(h: Lamport.Hashes, address: string, message: seq<int>, key: XmssKey, leaf: nat, id: string,
                         later: int, raises: bool)
      returns (r: Result<SigningResult>)
      requires leaf < |key.leaves| && leaf < |key.authPaths|
      requires |key.leaves[leaf].privateKey| == |Lamport.DigestBits(h.message(message))|
      modifies db
      ensures r.Ok? <==> !raises && Held(old(db.reservations), id, Slot(keyLabel, address), provider, owner)
                         && old(db.reservations)[id].status == Pending
      ensures r.Ok? ==> r.value == SigningResult(ExportPublic(key), SignReserved(h, key, message, leaf), id)
      ensures var step := if raises then SigningRuns.Fail(Slot(keyLabel, address), provider, owner, id, later)
                          else SigningRuns.Complete(Slot(keyLabel, address), provider, owner, id, key, later);
              db.View() == SigningRuns.Next(SigningRuns.World(old(db.View()), []), step, db.ttl).tables
    {
      hide Held, Closed, CompletedTables;
      var slot := Slot(keyLabel, address);
      if raises {
        var failed := db.Fail(slot, provider, id, owner, later);
        return Rejected("signing failed");
      }
      var signature := SignReserved(h, key, message, leaf);
      var completed := db.Complete(slot, provider, id, key, owner, later);
      if !completed {
        var failed := db.Fail(slot, provider, id, owner, later);
        return Rejected("reservation is no longer pending");
      }
      return Ok(SigningResult(ExportPublic(key), signature, id));
    }

    /** Signs a message with the next leaf of an address. `raises` says that signing itself fails. Whether it does or
        not, a granted reservation uses up exactly one leaf, the signer and the database agree on the new state, and
        nothing of the reservation stays open; a returned signature is always accepted. */
    method SignForAddress(h: Lamport.Hashes, address: string, message: seq<int>, id: string, now: int, later: int,
                          raises: bool)
      returns (r: Result<SigningResult>)
      requires Lamport.ProperHashes(h) && StoredKeysSound(h, db.keys)
      modifies this, db
      ensures StoredKeysSound(h, db.keys)
      ensures var slot := Slot(keyLabel, address);
              var granted := address in old(keys) && Grants(old(db.View()), slot, provider, Xmss.Reserver(), id, now);
              && r.Ok? == (granted && !raises)
              && (!granted ==> db.View() == old(db.View()) && keys == old(keys))
              && (granted ==>
                    var (next, leaf) := Xmss.Reserve(old(db.keys)[slot].state).value;
                    && keys == old(keys)[address := next]
                    && db.keys == old(db.keys)[slot := KeyRow(provider, next)]
                    && id in db.reservations && db.reservations[id].status == (if raises then Failed else Completed)
                    && db.reservations[id].material == leaf
                    && !Blocked(db.reservations, slot, provider)
                    && (r.Ok? ==> r.value == SigningResult(ExportPublic(next), r.value.signature, id)
                                  && r.value.signature.leafIndex == leaf
                                  && Accepted(h, message, r.value.signature, r.value.publicKey)))
    {
      hide Accepted, Sound, Reserved, Held, Closed, Blocked, SignReserved;
      var slot := Slot(keyLabel, address);
      ghost var before := db.View();
      var reserved := ReserveKeyUsage(address, id, now);
      if reserved.Rejected? { return Rejected(reserved.reason); }
      var key, leaf := reserved.value.0, reserved.value.1;
      ReservedSignatureVerifies(h, before.keys[slot].state, message);
      StoredKeyStaysSound(h, before.keys, slot, provider, key);
      ReservedLeafUsable(h, before.keys[slot].state, message);
      GrantedThenClosed(before, slot, provider, owner, id, now, db.ttl, if raises then Failed else Completed, later);
      r := FinishSigning(h, address, message, key, leaf, id, later, raises);
    }
  }

  lemma ReservedLeafUsable(h: Lamport.Hashes, k: XmssKey, message: seq<int>)
    requires Lamport.ProperHashes(h) && Sound(h, k) && Xmss.Reserve(k).Some?
    ensures var (next, leaf) := Xmss.Reserve(k).value;
            && leaf < |next.leaves| && leaf < |next.authPaths| && next.height == k.height
            && |next.leaves[leaf].privateKey| == |Lamport.DigestBits(h.message(message))|
            && SignReserved(h, next, message, leaf).leafIndex == leaf
  {
  }
}
