/** The nonce table that keeps signed peer requests from being accepted twice. */
module ReplayWindow {
  import opened Results
  import opened Collections

  datatype Key = Key(node: string, nonce: string)

  type Nonces = map<Key, real>

  const CAPACITY := 4096

  /** A signed request as it arrives: the clock is read once when the envelope is checked and once when the nonce is
      stored. `genuine` sums up every check that involves neither the clock nor the table. */
  datatype Request = Request(key: Key, timestamp: int, genuine: bool, checkedAt: real, markedAt: real)

  function Retention(skew: int): int { if 2 * skew + 1 > 1 then 2 * skew + 1 else 1 }

  predicate WithinSkew(now: real, timestamp: int, skew: int)
  {
    -skew <= now.Floor - timestamp <= skew
  }

  function Pruned(t: Nonces, cutoff: real): Nonces { map k | k in t && t[k] >= cutoff :: t[k] }

  function Held(t: Nonces, node: string): set<Key> { set k | k in t && k.node == node }

  /** Outcome of storing a nonce: pruning stays even when the nonce is refused. */
  datatype Marking = Marking(table: Nonces, ok: bool)

  function Mark(t: Nonces, key: Key, seenAt: real, retention: int): Marking
  {
    if retention <= 0 then Marking(t, false)
    else
      var kept := Pruned(t, seenAt - retention as real);
      if key in kept || |Held(kept, key.node)| >= CAPACITY then Marking(kept, false)
        else Marking(kept[key := seenAt], true)
  }

  function Authenticate(t: Nonces, skew: int, r: Request): Marking
  {
    if !r.genuine || !WithinSkew(r.checkedAt, r.timestamp, skew) then Marking(t, false)
    else Mark(t, r.key, r.markedAt, Retention(skew))
  }

  function TableAfter(skew: int, s: seq<Request>): Nonces
  {
    if s == [] then map[] else Authenticate(TableAfter(skew, s[..|s| - 1]), skew, s[|s| - 1]).table
  }

  predicate Accepted(skew: int, s: seq<Request>, i: nat)
    requires i < |s|
  {
    Authenticate(TableAfter(skew, s[..i]), skew, s[i]).ok
  }

  /** Requests are handled one after the other under a clock that never runs backwards. */
  predicate Monotone(s: seq<Request>)
  {
    && (forall i | 0 <= i < |s| :: s[i].checkedAt <= s[i].markedAt)
    && forall i, j | 0 <= i < j < |s| :: s[i].markedAt <= s[j].checkedAt
  }

  predicate SameEnvelope(a: Request, b: Request) { a.key == b.key && a.timestamp == b.timestamp }

  /** An accepted nonce stays in the table until the retention time after it has passed. */
  lemma {:induction false} KeptUntil(skew: int, s: seq<Request>, i: nat, n: nat)
    requires Monotone(s) && i < n <= |s| && Accepted(skew, s, i)
    ensures var t := TableAfter(skew, s[..n]);
            || (s[i].key in t && t[s[i].key] >= s[i].markedAt)
            || s[i].markedAt < s[n - 1].markedAt - Retention(skew) as real
    decreases n
  {
    assert s[..n][..n - 1] == s[..n - 1];
    if i < n - 1 {
      KeptUntil(skew, s, i, n - 1);
    }
  }

  /** The clock is still within the skew when the nonce is stored. */
  predicate Prompt(skew: int, r: Request) { WithinSkew(r.markedAt, r.timestamp, skew) }

  /** No envelope is accepted twice over any run, although old nonces are pruned, as long as storing the nonce of the
      second attempt happens within the skew too. */
  lemma NoReplay(skew: int, s: seq<Request>, i: nat, j: nat)
    requires Monotone(s) && i < j < |s| && SameEnvelope(s[i], s[j]) && Prompt(skew, s[j])
    requires Accepted(skew, s, i)
    ensures !Accepted(skew, s, j)
  {
    KeptUntil(skew, s, i, j);
    assert s[j - 1].markedAt <= s[j].markedAt;
    assert s[j].markedAt < s[j].markedAt.Floor as real + 1.0;
    assert s[i].checkedAt >= s[i].checkedAt.Floor as real;
  }

  /** The two clock readings of each request are at most `lag` apart. */
  predicate LagWithin(s: seq<Request>, lag: real)
  {
    forall i | 0 <= i < |s| :: s[i].markedAt <= s[i].checkedAt + lag
  }

  ghost predicate Replayed(skew: int, s: seq<Request>)
  {
    exists i: nat, j: nat | i < j < |s| :: SameEnvelope(s[i], s[j]) && Accepted(skew, s, i) && Accepted(skew, s, j)
  }

  ghost predicate ReplayFree(skew: int, lag: real)
  {
    forall s | Monotone(s) && LagWithin(s, lag) :: !Replayed(skew, s)
  }

  lemma ReadOnceIsSafe(skew: int, s: seq<Request>)
    requires Monotone(s) && LagWithin(s, 0.0)
    ensures !Replayed(skew, s)
  {
    forall i: nat, j: nat | i < j < |s| && SameEnvelope(s[i], s[j]) && Accepted(skew, s, i)
      ensures !Accepted(skew, s, j)
    {
      if Accepted(skew, s, j) { NoReplay(skew, s, i, j); }
    }
  }

  /** With any delay between the two readings an envelope can be accepted again at the very edge of the window. */
  lemma LagAllowsReplay(skew: nat, lag: real, key: Key) returns (s: seq<Request>)
    requires lag > 0.0
    ensures Monotone(s) && LagWithin(s, lag) && Replayed(skew, s)
  {
    var e := if lag < 1.0 then lag / 2.0 else 0.5;
    var c := (2 * skew + 1) as real - e;
    assert c.Floor == 2 * skew;
    var first := Request(key, skew, true, 0.0, 0.0);
    var second := Request(key, skew, true, c, c + lag);
    s := [first, second];
    assert s[..0] == [] && s[..1] == [first] && [first][..0] == [];
    assert Held(map[], key.node) == {};
    assert Pruned(map[], 0.0 - Retention(skew) as real) == map[];
    assert TableAfter(skew, []) == map[];
    assert Authenticate(map[], skew, first) == Marking(map[key := 0.0], true);
    assert Accepted(skew, s, 0);
    assert TableAfter(skew, [first]) == map[key := 0.0];
    assert Pruned(map[key := 0.0], c + lag - Retention(skew) as real) == map[];
    assert Accepted(skew, s, 1);
    assert SameEnvelope(s[0], s[1]);
  }

  /** No envelope is ever accepted twice exactly when the clock is in effect read once per request. */
  lemma ReplayFreeIff(skew: nat, lag: real)
    requires lag >= 0.0
    ensures ReplayFree(skew, lag) <==> lag == 0.0
  {
    if lag > 0.0 {
      var s := LagAllowsReplay(skew, lag, Key("", ""));
      assert !ReplayFree(skew, lag);
    } else {
      forall s | Monotone(s) && LagWithin(s, lag) ensures !Replayed(skew, s) { ReadOnceIsSafe(skew, s); }
    }
  }

  // ---------------------------------------------------------------- capacity

  ghost predicate WithinCapacity(t: Nonces) { forall node :: |Held(t, node)| <= CAPACITY }

  lemma PrunedHolds(t: Nonces, cutoff: real, node: string)
    ensures |Held(Pruned(t, cutoff), node)| <= |Held(t, node)|
  {
    SubsetSize(Held(Pruned(t, cutoff), node), Held(t, node));
  }

  lemma AddedHolds(t: Nonces, key: Key, seenAt: real, node: string)
    requires key !in t
    ensures |Held(t[key := seenAt], node)| == |Held(t, node)| + if key.node == node then 1 else 0
  {
    assert Held(t[key := seenAt], node) == Held(t, node) + if key.node == node then {key} else {};
  }

  lemma MarkKeepsCapacity(t: Nonces, key: Key, seenAt: real, retention: int)
    requires WithinCapacity(t)
    ensures WithinCapacity(Mark(t, key, seenAt, retention).table)
  {
    hide Held, Pruned;
    var kept := Pruned(t, seenAt - retention as real);
    var next := Mark(t, key, seenAt, retention).table;
    forall node ensures |Held(next, node)| <= CAPACITY {
      PrunedHolds(t, seenAt - retention as real, node);
      if key !in kept { AddedHolds(kept, key, seenAt, node); }
    }
  }

  /** No identity ever holds more than 4096 nonces, whatever requests arrive. */
  lemma {:induction false} NeverOverCapacity(skew: int, s: seq<Request>)
    ensures WithinCapacity(TableAfter(skew, s))
  {
    if s == [] {
      assert forall node :: Held(map[], node) == {};
    } else {
      NeverOverCapacity(skew, s[..|s| - 1]);
      var r := s[|s| - 1];
      MarkKeepsCapacity(TableAfter(skew, s[..|s| - 1]), r.key, r.markedAt, Retention(skew));
    }
  }

  // ---------------------------------------------------------------- what decides acceptance

  /** The nonces of requests accepted at or after a time. */
  ghost function AcceptedSince(skew: int, s: seq<Request>, since: real): set<Key>
  {
    set j | 0 <= j < |s| && Accepted(skew, s, j) && s[j].markedAt >= since :: s[j].key
  }

  lemma AcceptedPrefix(skew: int, s: seq<Request>, since: real)
    requires s != []
    ensures var front, r := s[..|s| - 1], s[|s| - 1];
            AcceptedSince(skew, s, since)
            == AcceptedSince(skew, front, since)
               + if Accepted(skew, s, |s| - 1) && r.markedAt >= since then {r.key} else {}
  {
    hide Authenticate, TableAfter;
    var front := s[..|s| - 1];
    forall j | 0 <= j < |front| ensures Accepted(skew, front, j) == Accepted(skew, s, j) {
      assert front[..j] == s[..j];
    }
    forall k | k in AcceptedSince(skew, s, since)
      ensures k in AcceptedSince(skew, front, since) || k == s[|s| - 1].key
    {
      var j :| 0 <= j < |s| && Accepted(skew, s, j) && s[j].markedAt >= since && s[j].key == k;
      if j < |front| { assert front[j].key == k; }
    }
    forall k | k in AcceptedSince(skew, front, since) ensures k in AcceptedSince(skew, s, since) {
      var j :| 0 <= j < |front| && Accepted(skew, front, j) && front[j].markedAt >= since && front[j].key == k;
      assert s[j].key == k;
    }
  }

  lemma PrunedTwice(t: Nonces, early: real, late: real)
    requires early <= late
    ensures Pruned(Pruned(t, early), late) == Pruned(t, late)
  {
  }

  lemma PrunedWith(t: Nonces, key: Key, seenAt: real, since: real)
    requires key !in Pruned(t, since)
    ensures Pruned(t[key := seenAt], since).Keys == Pruned(t, since).Keys + if seenAt >= since then {key} else {}
  {
  }

  /** What handling a request does to the part of the table within the retention time. */
  lemma StepPruned(skew: int, t: Nonces, r: Request, since: real)
    requires since >= r.markedAt - Retention(skew) as real
    ensures var m := Authenticate(t, skew, r);
            Pruned(m.table, since).Keys
            == Pruned(t, since).Keys + if m.ok && r.markedAt >= since then {r.key} else {}
  {
    hide Pruned, Held, Retention;
    assert Retention(skew) >= 1 by { RetentionPositive(skew); }
    var cutoff := r.markedAt - Retention(skew) as real;
    var m := Authenticate(t, skew, r);
    PrunedTwice(t, cutoff, since);
    if m.ok {
      PrunedSubset(t, cutoff, since, r.key);
      PrunedWith(Pruned(t, cutoff), r.key, r.markedAt, since);
    }
  }

  lemma RetentionPositive(skew: int)
    ensures Retention(skew) >= 1
  {
  }

  lemma PrunedSubset(t: Nonces, early: real, late: real, key: Key)
    requires early <= late && key !in Pruned(t, early)
    ensures key !in Pruned(t, late)
  {
  }

  /** Within the retention time the table holds exactly the nonces of the accepted requests. */
  lemma {:induction false} TableIsHistory(skew: int, s: seq<Request>, since: real)
    requires Monotone(s) && (s != [] ==> since >= s[|s| - 1].markedAt - Retention(skew) as real)
    ensures Pruned(TableAfter(skew, s), since).Keys == AcceptedSince(skew, s, since)
  {
    hide AcceptedSince, Pruned, Retention;
    if s != [] {
      var front, r := s[..|s| - 1], s[|s| - 1];
      if front != [] { assert s[|s| - 2].markedAt <= r.markedAt; }
      TableIsHistory(skew, front, since);
      AcceptedPrefix(skew, s, since);
      StepPruned(skew, TableAfter(skew, front), r, since);
    } else {
      NothingAccepted(skew, since);
    }
  }

  lemma NothingAccepted(skew: int, since: real)
    ensures Pruned(map[], since).Keys == {} == AcceptedSince(skew, [], since)
  {
  }

  /** A request is accepted exactly when it is genuine, its timestamp is within the skew of the clock, no request with
      its nonce was accepted within the retention time, and fewer than 4096 of its identity were. */
  lemma AcceptedIff(skew: int, s: seq<Request>, i: nat)
    requires Monotone(s) && i < |s|
    ensures var since := s[i].markedAt - (if 2 * skew + 1 > 1 then 2 * skew + 1 else 1) as real;
            var recent := AcceptedSince(skew, s[..i], since);
            Accepted(skew, s, i)
            <==> && s[i].genuine && -skew <= s[i].checkedAt.Floor - s[i].timestamp <= skew
                 && s[i].key !in recent && |set k | k in recent && k.node == s[i].key.node| < 4096
  {
    hide AcceptedSince, TableAfter;
    var since := s[i].markedAt - Retention(skew) as real;
    if i > 0 { assert s[i - 1].markedAt <= s[i].markedAt; }
    TableIsHistory(skew, s[..i], since);
    var kept, recent := Pruned(TableAfter(skew, s[..i]), since), AcceptedSince(skew, s[..i], since);
    assert Held(kept, s[i].key.node) == set k | k in recent && k.node == s[i].key.node;
  }

  // ---------------------------------------------------------------- the table

  class NonceTable {
    var rows: Nonces

    constructor ()
      ensures rows == map[]
    {
      rows := map[];
    }

    method MarkPeerNonce(key: Key, seenAt: real, retention: int) returns (r: Result<bool>)
      modifies this
      ensures Marking(rows, r.Ok?) == Mark(old(rows), key, seenAt, retention)
    {
      if retention <= 0 { return Rejected("nonce retention must be positive"); }
      rows := map k | k in rows && rows[k] >= seenAt - retention as real :: rows[k];
      if key in rows { return Rejected("nonce has already been used"); }
      if |set k | k in rows && k.node == key.node| >= CAPACITY { return Rejected("replay window is at capacity"); }
      rows := rows[key := seenAt];
      return Ok(true);
    }

    method AuthenticateRequest(skew: int, request: Request) returns (r: Result<bool>)
      modifies this
      ensures Marking(rows, r.Ok?) == Authenticate(old(rows), skew, request)
    {
      if !request.genuine { return Rejected("request is not genuine"); }
      if !WithinSkew(request.checkedAt, request.timestamp, skew) { return Rejected("timestamp outside allowed skew"); }
      r := MarkPeerNonce(request.key, request.markedAt, Retention(skew));
    }
  }
}
