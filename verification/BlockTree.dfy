/** A tree of competing blocks under any deterministic admission rule, and what its runs keep.
    The version 2 engine is the instance `ConsensusV2.EngineRule`. */
module BlockTree {
  import opened Results
  import opened Collections
  import Numerals
  import opened Coins

  /** `step` answers the entry of a block under its parent's entry, or nothing when it is refused. */
  datatype Rule<!B, !E> = Rule(
    id: B -> Hash, parent: B -> Hash, height: B -> int, genuine: B -> bool,
    block: E -> B, work: E -> int,
    step: (E, B) -> Option<E>, genesis: E)

  datatype Tree<+E> = Tree(entries: map<Hash, E>, tip: Hash)

  ghost function GenesisId<B, E>(r: Rule<B, E>): Hash { r.id(r.block(r.genesis)) }

  ghost predicate Lawful<B(!new), E(!new)>(r: Rule<B, E>)
  {
    && r.height(r.block(r.genesis)) == 0
    && forall e, b {:trigger r.step(e, b)} | r.step(e, b).Some? ::
         && r.block(r.step(e, b).value) == b && r.genuine(b)
         && r.parent(b) == r.id(r.block(e))
         && r.height(b) == r.height(r.block(e)) + 1 && r.height(b) >= 0
  }

  /** A head is preferred to another for more work, then for the smaller hash. */
  predicate Wins(workA: int, a: Hash, workB: int, b: Hash)
  {
    workA > workB || (workA == workB && a < b)
  }

  ghost predicate Accepts<B, E>(r: Rule<B, E>, t: Tree<E>, b: B)
  {
    r.parent(b) in t.entries && r.step(t.entries[r.parent(b)], b).Some?
  }

  ghost function Insert<B, E>(r: Rule<B, E>, t: Tree<E>, h: Hash, e: E): Tree<E>
    requires t.tip in t.entries
  {
    Tree(t.entries[h := e], if Wins(r.work(e), h, r.work(t.entries[t.tip]), t.tip) then h else t.tip)
  }

  /** The tree after a block is offered: refused and repeated blocks leave it as it was. */
  ghost function Deliver<B, E>(r: Rule<B, E>, t: Tree<E>, b: B): (u: Tree<E>)
    requires t.tip in t.entries
    ensures u.tip in u.entries
  {
    if Accepts(r, t, b) && r.id(b) !in t.entries
    then Insert(r, t, r.id(b), r.step(t.entries[r.parent(b)], b).value)
    else t
  }

  ghost function GenesisTree<B, E>(r: Rule<B, E>): Tree<E>
  {
    Tree(map[GenesisId(r) := r.genesis], GenesisId(r))
  }

  ghost function Feed<B, E>(r: Rule<B, E>, t: Tree<E>, s: seq<B>): (u: Tree<E>)
    requires t.tip in t.entries
    ensures u.tip in u.entries
  {
    if s == [] then t
    else Deliver(r, Feed(r, t, s[..|s| - 1]), s[|s| - 1])
  }

  /** A stored entry: its parent is stored, admits its block and determines it. */
  ghost predicate Justified<B, E>(r: Rule<B, E>, t: Tree<E>, h: Hash)
    requires h in t.entries
  {
    var b := r.block(t.entries[h]);
    r.id(b) == h && r.parent(b) in t.entries && r.step(t.entries[r.parent(b)], b) == Some(t.entries[h])
  }

  /** The tip is preferred to every other stored block. */
  ghost predicate BestTip<B, E>(r: Rule<B, E>, t: Tree<E>)
  {
    && t.tip in t.entries
    && forall h | h in t.entries :: h == t.tip || Wins(r.work(t.entries[t.tip]), t.tip, r.work(t.entries[h]), h)
  }

  /** What every run keeps. */
  ghost predicate Grown<B, E>(r: Rule<B, E>, t: Tree<E>)
  {
    && GenesisId(r) in t.entries && t.entries[GenesisId(r)] == r.genesis
    && (forall h | h in t.entries && h != GenesisId(r) :: Justified(r, t, h))
    && BestTip(r, t)
  }

  ghost predicate Includes<E>(t: Tree<E>, u: Tree<E>)
  {
    forall h | h in t.entries :: h in u.entries && u.entries[h] == t.entries[h]
  }

  /** The tip of `u` is that of `t`, or one preferred to it. */
  ghost predicate RankNotLower<B, E>(r: Rule<B, E>, t: Tree<E>, u: Tree<E>)
    requires t.tip in t.entries && u.tip in u.entries
  {
    u.tip == t.tip || Wins(r.work(u.entries[u.tip]), u.tip, r.work(t.entries[t.tip]), t.tip)
  }

  /** Delivering any block, good or bad, keeps the invariant, keeps every entry and never lowers the tip. */
  lemma DeliverGrows<B(!new), E(!new)>(r: Rule<B, E>, t: Tree<E>, b: B)
    requires Lawful(r) && Grown(r, t)
    ensures Grown(r, Deliver(r, t, b))
    ensures Includes(t, Deliver(r, t, b)) && RankNotLower(r, t, Deliver(r, t, b))
  {
    var u := Deliver(r, t, b);
    forall h | h in u.entries && h != GenesisId(r)
      ensures Justified(r, u, h)
    {
      assert h in t.entries ==> Justified(r, t, h);
    }
  }

  /** The best head of a set of entries is unique, so it cannot depend on arrival order. */
  lemma BestTipUnique<B, E>(r: Rule<B, E>, t: Tree<E>, u: Tree<E>)
    requires BestTip(r, t) && BestTip(r, u) && t.entries == u.entries
    ensures t == u
  {
  }

  lemma {:induction false} FeedGrows<B(!new), E(!new)>(r: Rule<B, E>, t: Tree<E>, s: seq<B>)
    requires Lawful(r) && Grown(r, t)
    ensures Grown(r, Feed(r, t, s))
    ensures Includes(t, Feed(r, t, s)) && RankNotLower(r, t, Feed(r, t, s))
  {
    if s != [] {
      FeedGrows(r, t, s[..|s| - 1]);
      DeliverGrows(r, Feed(r, t, s[..|s| - 1]), s[|s| - 1]);
    }
  }

  lemma FeedStep<B, E>(r: Rule<B, E>, t: Tree<E>, s: seq<B>, i: nat)
    requires t.tip in t.entries && i < |s|
    ensures Feed(r, t, s[..i + 1]) == Deliver(r, Feed(r, t, s[..i]), s[i])
  {
    assert s[..i + 1][..i] == s[..i];
  }

  lemma {:induction false} FeedConcat<B, E>(r: Rule<B, E>, t: Tree<E>, a: seq<B>, b: seq<B>)
    requires t.tip in t.entries
    ensures Feed(r, t, a + b) == Feed(r, Feed(r, t, a), b)
  {
    if b == [] {
      assert a + b == a;
    } else {
      FeedConcat(r, t, a, b[..|b| - 1]);
      assert (a + b)[..|a + b| - 1] == a + b[..|b| - 1];
    }
  }

  // ---------------------------------------------------------------- order independence

  ghost function Run<B, E>(r: Rule<B, E>, s: seq<B>): (u: Tree<E>)
    ensures u.tip in u.entries
  {
    Feed(r, GenesisTree(r), s)
  }

  lemma RunGrown<B(!new), E(!new)>(r: Rule<B, E>, s: seq<B>, i: nat)
    requires Lawful(r) && i <= |s|
    ensures Grown(r, Run(r, s[..i])) && Includes(Run(r, s[..i]), Run(r, s))
  {
    FeedGrows(r, GenesisTree(r), s[..i]);
    FeedConcat(r, GenesisTree(r), s[..i], s[i..]);
    assert s[..i] + s[i..] == s;
    FeedGrows(r, Run(r, s[..i]), s[i..]);
  }

  /** A genuine block that some offered block names as its parent has itself been offered before. */
  ghost predicate ParentsFirst<B, E>(r: Rule<B, E>, s: seq<B>)
  {
    forall i, j | 0 <= i < |s| && 0 <= j < |s| && r.genuine(s[j]) && r.id(s[j]) == r.parent(s[i]) :: s[j] in s[..i]
  }

  /** Two different genuine blocks share an identifier. */
  ghost predicate Clash<B, E>(r: Rule<B, E>, blocks: set<B>)
  {
    exists a, b | a in blocks && b in blocks :: a != b && r.genuine(a) && r.genuine(b) && r.id(a) == r.id(b)
  }

  /** The step at which a stored block was added. */
  lemma {:induction false} AddedAt<B(!new), E(!new)>(r: Rule<B, E>, s: seq<B>, t: nat, h: Hash) returns (i: nat)
    requires Lawful(r) && t <= |s|
    requires h != GenesisId(r) && h in Run(r, s[..t]).entries
    ensures i < t && r.id(s[i]) == h && Accepts(r, Run(r, s[..i]), s[i]) && r.genuine(s[i])
    ensures r.block(Run(r, s[..t]).entries[h]) == s[i]
  {
    FeedStep(r, GenesisTree(r), s, t - 1);
    if h in Run(r, s[..t - 1]).entries {
      i := AddedAt(r, s, t - 1, h);
    } else {
      i := t - 1;
    }
  }

  /** Under a parents-first feed, a block that is ever acceptable is acceptable whenever it is offered. */
  lemma {:induction false} AcceptedWhenOffered<B(!new), E(!new)>(r: Rule<B, E>, s: seq<B>, t: nat, k: nat)
    requires Lawful(r) && ParentsFirst(r, s)
    requires t <= |s| && k < |s|
    requires Accepts(r, Run(r, s[..t]), s[k])
    ensures Accepts(r, Run(r, s[..k]), s[k])
    decreases t
  {
    RunGrown(r, s, t);
    RunGrown(r, s, k);
    var p := r.parent(s[k]);
    if p != GenesisId(r) {
      var i := AddedAt(r, s, t, p);
      var j :| 0 <= j < k && s[j] == s[i];
      AcceptedWhenOffered(r, s, i, j);
      RunGrown(r, s, j);
      FeedStep(r, GenesisTree(r), s, j);
      RunGrown(r, s[..k], j + 1);
      assert s[..k][..j + 1] == s[..j + 1];
      assert p in Run(r, s[..k]).entries;
    }
  }

  /** Nothing offered would still be added if it were offered again. */
  ghost predicate Saturated<B, E>(r: Rule<B, E>, s: seq<B>)
  {
    forall b | b in s :: Deliver(r, Run(r, s), b) == Run(r, s)
  }

  lemma ParentsFirstSaturates<B(!new), E(!new)>(r: Rule<B, E>, s: seq<B>)
    requires Lawful(r) && ParentsFirst(r, s)
    ensures Saturated(r, s)
  {
    assert s[..|s|] == s;
    forall k | 0 <= k < |s|
      ensures Deliver(r, Run(r, s), s[k]) == Run(r, s)
    {
      if Accepts(r, Run(r, s), s[k]) {
        AcceptedWhenOffered(r, s, |s|, k);
        FeedStep(r, GenesisTree(r), s, k);
        RunGrown(r, s, k + 1);
      }
    }
  }

  /** Every block that the first run stored was offered to the second. */
  ghost predicate Offered<B, E>(r: Rule<B, E>, s1: seq<B>, s2: seq<B>)
  {
    forall h | h in Run(r, s1).entries && h != GenesisId(r) :: r.block(Run(r, s1).entries[h]) in s2
  }

  lemma StoredWasOffered<B(!new), E(!new)>(r: Rule<B, E>, s: seq<B>)
    requires Lawful(r)
    ensures Offered(r, s, s)
  {
    assert s[..|s|] == s;
    forall h | h in Run(r, s).entries && h != GenesisId(r) ensures r.block(Run(r, s).entries[h]) in s {
      var i := AddedAt(r, s, |s|, h);
    }
  }

  /** What one offer newly stores, the run holds in the end, so it was offered to the other run. */
  lemma NewIsOffered<B(!new), E(!new)>(r: Rule<B, E>, s1: seq<B>, s2: seq<B>, i: nat)
    requires Lawful(r) && i < |s1| && Offered(r, s1, s2)
    requires Accepts(r, Run(r, s1[..i]), s1[i]) && r.id(s1[i]) !in Run(r, s1[..i]).entries
    ensures s1[i] in s2
  {
    var h := r.id(s1[i]);
    var t := Run(r, s1[..i + 1]);
    FeedStep(r, GenesisTree(r), s1, i);
    RunGrown(r, s1, i);
    RunGrown(r, s1, i + 1);
    assert h in t.entries && r.block(t.entries[h]) == s1[i];
    assert h in Run(r, s1).entries && Run(r, s1).entries[h] == t.entries[h];
    assert h != GenesisId(r);
  }

  lemma AbsorbStep<B(!new), E(!new)>(r: Rule<B, E>, t: Tree<E>, s2: seq<B>, b: B)
    requires Lawful(r) && Saturated(r, s2) && !Clash(r, Elements(s2))
    requires Accepts(r, t, b) && r.id(b) !in t.entries ==> b in s2
    requires t.tip in t.entries && GenesisId(r) in t.entries && Includes(t, Run(r, s2))
    ensures Includes(Deliver(r, t, b), Run(r, s2))
  {
    assert s2[..|s2|] == s2;
    RunGrown(r, s2, |s2|);
    var u := Run(r, s2);
    if Accepts(r, t, b) && r.id(b) !in t.entries {
      assert r.id(b) in u.entries by { assert Deliver(r, u, b) == u; }
      var k := AddedAt(r, s2, |s2|, r.id(b));
      assert s2[k] == b;
      assert Justified(r, u, r.id(b));
    }
  }

  lemma AbsorbStart<B(!new), E(!new)>(r: Rule<B, E>, s1: seq<B>, s2: seq<B>)
    requires Lawful(r)
    ensures Includes(Run(r, s1[..0]), Run(r, s2))
  {
    assert s2[..|s2|] == s2;
    RunGrown(r, s2, |s2|);
  }

  /** A saturated run absorbs every prefix of any run whose stored blocks were offered to it. */
  lemma {:induction false} Absorbs<B(!new), E(!new)>(r: Rule<B, E>, s1: seq<B>, s2: seq<B>, i: nat)
    requires Lawful(r) && Saturated(r, s2) && i <= |s1|
    requires Offered(r, s1, s2) && !Clash(r, Elements(s2))
    ensures Includes(Run(r, s1[..i]), Run(r, s2))
  {
    hide Lawful, Saturated, Clash, Deliver, Includes, Accepts, Offered, Grown;
    if i > 0 {
      var b, t := s1[i - 1], Run(r, s1[..i - 1]);
      Absorbs(r, s1, s2, i - 1);
      FeedStep(r, GenesisTree(r), s1, i - 1);
      RunGrown(r, s1, i - 1);
      GenesisStored(r, t);
      if Accepts(r, t, b) && r.id(b) !in t.entries { NewIsOffered(r, s1, s2, i - 1); }
      AbsorbStep(r, t, s2, b);
    } else {
      AbsorbStart(r, s1, s2);
    }
  }

  lemma MutualInclusion<E>(t: Tree<E>, u: Tree<E>)
    requires Includes(t, u) && Includes(u, t)
    ensures t.entries == u.entries
  {
    assert forall h | h in t.entries :: h in u.entries && t.entries[h] == u.entries[h];
    assert forall h | h in u.entries :: h in t.entries;
  }

  /** Two saturated runs end in the same tree when what each stored was offered to the other, or two of the blocks
      offered to one of them clash. What either refused need not be offered to the other. */
  lemma SaturatedRunsAgree<B(!new), E(!new)>(r: Rule<B, E>, s1: seq<B>, s2: seq<B>)
    requires Lawful(r) && Saturated(r, s1) && Saturated(r, s2)
    requires Offered(r, s1, s2) && Offered(r, s2, s1)
    ensures Run(r, s1) == Run(r, s2) || Clash(r, Elements(s1)) || Clash(r, Elements(s2))
  {
    if !Clash(r, Elements(s1)) && !Clash(r, Elements(s2)) {
      Absorbs(r, s1, s2, |s1|);
      Absorbs(r, s2, s1, |s2|);
      assert s1[..|s1|] == s1 && s2[..|s2|] == s2;
      RunGrown(r, s1, |s1|);
      RunGrown(r, s2, |s2|);
      MutualInclusion(Run(r, s1), Run(r, s2));
      BestTipUnique(r, Run(r, s1), Run(r, s2));
    }
  }

  // ---------------------------------------------------------------- replay

  lemma Rooted<B(!new), E(!new)>(r: Rule<B, E>, t: Tree<E>, h: Hash)
    requires Lawful(r) && Grown(r, t) && h in t.entries
    ensures r.id(r.block(t.entries[h])) == h
    ensures r.height(r.block(t.entries[h])) >= 0
    ensures h != GenesisId(r) ==>
              && r.parent(r.block(t.entries[h])) in t.entries
              && r.height(r.block(t.entries[h])) == r.height(r.block(t.entries[r.parent(r.block(t.entries[h]))])) + 1
              && r.height(r.block(t.entries[h])) >= 1
  {
    if h != GenesisId(r) {
      assert Justified(r, t, h);
      var p := r.parent(r.block(t.entries[h]));
      assert p == GenesisId(r) || Justified(r, t, p);
    }
  }

  /** The blocks from just above the genesis up to a stored block. */
  ghost function Branch<B(!new), E(!new)>(r: Rule<B, E>, t: Tree<E>, h: Hash): seq<B>
    requires Lawful(r) && Grown(r, t) && h in t.entries
    decreases r.height(r.block(t.entries[h]))
  {
    Rooted(r, t, h);
    if h == GenesisId(r) then []
    else Branch(r, t, r.parent(r.block(t.entries[h]))) + [r.block(t.entries[h])]
  }

  /** The entry a chain of blocks leads to when each is admitted under the one before. */
  ghost function Replay<B, E>(r: Rule<B, E>, blocks: seq<B>): Option<E>
  {
    if blocks == [] then Some(r.genesis)
    else
      match Replay(r, blocks[..|blocks| - 1])
      case None => None
      case Some(e) => r.step(e, blocks[|blocks| - 1])
  }

  /** Every memoised entry is the replay of its own branch. */
  lemma {:induction false} EntryIsReplay<B(!new), E(!new)>(r: Rule<B, E>, t: Tree<E>, h: Hash)
    requires Lawful(r) && Grown(r, t) && h in t.entries
    ensures Replay(r, Branch(r, t, h)) == Some(t.entries[h])
    decreases r.height(r.block(t.entries[h]))
  {
    Rooted(r, t, h);
    if h != GenesisId(r) {
      assert Justified(r, t, h);
      var p := r.parent(r.block(t.entries[h]));
      EntryIsReplay(r, t, p);
      assert Branch(r, t, h)[..|Branch(r, t, h)| - 1] == Branch(r, t, p);
    }
  }

  /** Whether a block is accepted depends on nothing but the block and its ancestors. */
  lemma AncestorsDecide<B(!new), E(!new)>(r: Rule<B, E>, t: Tree<E>, u: Tree<E>, b: B)
    requires Lawful(r) && Grown(r, t) && Grown(r, u)
    requires r.parent(b) in t.entries && r.parent(b) in u.entries
    requires Branch(r, t, r.parent(b)) == Branch(r, u, r.parent(b))
    ensures Accepts(r, t, b) <==> Accepts(r, u, b)
    ensures t.entries[r.parent(b)] == u.entries[r.parent(b)]
  {
    EntryIsReplay(r, t, r.parent(b));
    EntryIsReplay(r, u, r.parent(b));
  }

  // ---------------------------------------------------------------- restart

  /** Reloading stored blocks in the given order; one refused block ends it with an exception. */
  ghost function Reload<B, E>(r: Rule<B, E>, s: seq<B>): (u: Option<Tree<E>>)
    ensures u.Some? ==> u.value.tip in u.value.entries
  {
    if s == [] then Some(GenesisTree(r))
    else
      var b := s[|s| - 1];
      match Reload(r, s[..|s| - 1])
      case None => None
      case Some(t) =>
        if r.id(b) == GenesisId(r) then Some(t)
        else if Accepts(r, t, b) then Some(Deliver(r, t, b))
        else None
  }

  /** A listing of exactly the stored blocks. */
  ghost predicate Lists<B, E>(r: Rule<B, E>, t: Tree<E>, s: seq<B>)
  {
    && (forall h | h in t.entries :: r.block(t.entries[h]) in s)
    && (forall b | b in s :: r.id(b) in t.entries && r.block(t.entries[r.id(b)]) == b)
  }

  ghost predicate ByHeight<B, E>(r: Rule<B, E>, s: seq<B>)
  {
    forall i, j | 0 <= i < j < |s| :: r.height(s[i]) <= r.height(s[j])
  }

  lemma ReloadStep<B(!new), E(!new)>(r: Rule<B, E>, t: Tree<E>, u: Tree<E>, b: B)
    requires Lawful(r) && Grown(r, t) && Grown(r, u) && Includes(u, t)
    requires r.id(b) in t.entries && r.block(t.entries[r.id(b)]) == b && r.id(b) != GenesisId(r)
    requires r.parent(b) in u.entries
    ensures Accepts(r, u, b) && u.tip in u.entries
    ensures Grown(r, Deliver(r, u, b)) && Includes(Deliver(r, u, b), t) && Includes(u, Deliver(r, u, b))
    ensures r.id(b) in Deliver(r, u, b).entries && forall h | h in u.entries :: h in Deliver(r, u, b).entries
  {
    assert Justified(r, t, r.id(b));
    DeliverGrows(r, u, b);
  }

  lemma GenesisStored<B, E>(r: Rule<B, E>, u: Tree<E>)
    requires Grown(r, u)
    ensures GenesisId(r) in u.entries && u.tip in u.entries
  {
  }

  lemma ReloadStart<B(!new), E(!new)>(r: Rule<B, E>, t: Tree<E>, s: seq<B>)
    requires Lawful(r) && Grown(r, t)
    ensures Reload(r, s[..0]) == Some(GenesisTree(r)) && Grown(r, GenesisTree(r)) && Includes(GenesisTree(r), t)
  {
  }

  /** A listing of some of the stored blocks. */
  ghost predicate ListsSome<B, E>(r: Rule<B, E>, t: Tree<E>, s: seq<B>)
  {
    forall b | b in s :: r.id(b) in t.entries && r.block(t.entries[r.id(b)]) == b
  }

  predicate Contains<B, E>(r: Rule<B, E>, s: seq<B>, h: Hash)
  {
    exists i | 0 <= i < |s| :: r.id(s[i]) == h
  }

  /** The parent of every listed block is listed or is the genesis. */
  ghost predicate ParentsListed<B, E>(r: Rule<B, E>, s: seq<B>)
  {
    forall i | 0 <= i < |s| && r.id(s[i]) != GenesisId(r) ::
      r.parent(s[i]) == GenesisId(r) || Contains(r, s, r.parent(s[i]))
  }

  /** Part of a tree: the genesis and the listed blocks, with the entries they have there. */
  ghost predicate PartOf<B(!new), E(!new)>(r: Rule<B, E>, u: Tree<E>, t: Tree<E>, s: seq<B>)
  {
    Grown(r, u) && Includes(u, t) && forall h :: h in u.entries <==> h == GenesisId(r) || Contains(r, s, h)
  }

  lemma ContainsSnoc<B, E>(r: Rule<B, E>, s: seq<B>, i: nat, h: Hash)
    requires i < |s|
    ensures Contains(r, s[..i + 1], h) <==> Contains(r, s[..i], h) || r.id(s[i]) == h
  {
    assert s[..i + 1][i] == s[i];
    if Contains(r, s[..i], h) {
      var k :| 0 <= k < i && r.id(s[..i][k]) == h;
      assert s[..i + 1][k] == s[..i][k];
    }
    if Contains(r, s[..i + 1], h) && r.id(s[i]) != h {
      var k :| 0 <= k < i + 1 && r.id(s[..i + 1][k]) == h;
      assert s[..i][k] == s[..i + 1][k];
    }
  }

  lemma PartStep<B(!new), E(!new)>(r: Rule<B, E>, t: Tree<E>, u: Tree<E>, s: seq<B>, i: nat)
    requires Lawful(r) && Grown(r, t) && ListsSome(r, t, s) && i < |s| && PartOf(r, u, t, s[..i])
    requires r.id(s[i]) != GenesisId(r) && r.parent(s[i]) in u.entries
    ensures Accepts(r, u, s[i]) && u.tip in u.entries && PartOf(r, Deliver(r, u, s[i]), t, s[..i + 1])
  {
    hide Lawful, Grown, Includes, Contains;
    ReloadStep(r, t, u, s[i]);
    forall h
      ensures h in Deliver(r, u, s[i]).entries <==> h == GenesisId(r) || Contains(r, s[..i + 1], h)
    {
      ContainsSnoc(r, s, i, h);
    }
  }

  lemma PartStays<B(!new), E(!new)>(r: Rule<B, E>, t: Tree<E>, u: Tree<E>, s: seq<B>, i: nat)
    requires i < |s| && PartOf(r, u, t, s[..i]) && r.id(s[i]) == GenesisId(r)
    ensures PartOf(r, u, t, s[..i + 1])
  {
    hide Grown, Includes, Contains;
    forall h ensures h in u.entries <==> h == GenesisId(r) || Contains(r, s[..i + 1], h) {
      ContainsSnoc(r, s, i, h);
    }
  }

  lemma PartStart<B(!new), E(!new)>(r: Rule<B, E>, t: Tree<E>, s: seq<B>)
    requires Lawful(r) && Grown(r, t)
    ensures Reload(r, s[..0]) == Some(GenesisTree(r)) && PartOf(r, GenesisTree(r), t, s[..0])
  {
    ReloadStart(r, t, s);
  }

  lemma ReloadNext<B(!new), E(!new)>(r: Rule<B, E>, s: seq<B>, i: nat)
    requires i < |s|
    ensures Reload(r, s[..i + 1]).Some? ==> Reload(r, s[..i]).Some?
    ensures Reload(r, s[..i]).Some? ==>
              var u := Reload(r, s[..i]).value;
              Reload(r, s[..i + 1]) == if r.id(s[i]) == GenesisId(r) then Some(u)
                                       else if Accepts(r, u, s[i]) then Some(Deliver(r, u, s[i])) else None
  {
    hide Accepts, Deliver;
    assert s[..i + 1][..i] == s[..i] && s[..i + 1][i] == s[i];
  }

  /** What a reload that succeeds so far holds. */
  lemma {:induction false} ReloadedPart<B(!new), E(!new)>(r: Rule<B, E>, t: Tree<E>, s: seq<B>, i: nat)
    requires Lawful(r) && Grown(r, t) && ListsSome(r, t, s) && i <= |s| && Reload(r, s[..i]).Some?
    ensures PartOf(r, Reload(r, s[..i]).value, t, s[..i])
  {
    hide Lawful, Grown, PartOf, ListsSome, Reload, Deliver;
    if i > 0 {
      ReloadNext(r, s, i - 1);
      ReloadedPart(r, t, s, i - 1);
      var u := Reload(r, s[..i - 1]).value;
      if r.id(s[i - 1]) == GenesisId(r) {
        PartStays(r, t, u, s, i - 1);
      } else {
        PartStep(r, t, u, s, i - 1);
      }
    } else {
      PartStart(r, t, s);
    }
  }

  /** In a listing by height a listed parent stands before its child. */
  lemma ParentBefore<B(!new), E(!new)>(r: Rule<B, E>, t: Tree<E>, s: seq<B>, i: nat)
    requires Lawful(r) && Grown(r, t) && ListsSome(r, t, s) && ByHeight(r, s) && i < |s|
    requires r.id(s[i]) != GenesisId(r) && Contains(r, s, r.parent(s[i]))
    ensures Contains(r, s[..i], r.parent(s[i]))
  {
    Rooted(r, t, r.id(s[i]));
    var k :| 0 <= k < |s| && r.id(s[k]) == r.parent(s[i]);
    Rooted(r, t, r.id(s[k]));
    assert s[..i][k] == s[k];
  }

  lemma {:induction false} ClosedReloads<B(!new), E(!new)>(r: Rule<B, E>, t: Tree<E>, s: seq<B>, i: nat)
    requires Lawful(r) && Grown(r, t) && ListsSome(r, t, s) && ByHeight(r, s) && ParentsListed(r, s) && i <= |s|
    ensures Reload(r, s[..i]).Some?
  {
    hide Lawful, Grown, ListsSome, Reload, Deliver, Contains, ByHeight;
    if i > 0 {
      ClosedReloads(r, t, s, i - 1);
      ReloadedPart(r, t, s, i - 1);
      ReloadNext(r, s, i - 1);
      if r.id(s[i - 1]) != GenesisId(r) {
        if r.parent(s[i - 1]) != GenesisId(r) { ParentBefore(r, t, s, i - 1); }
        PartStep(r, t, Reload(r, s[..i - 1]).value, s, i - 1);
      }
    } else {
      PartStart(r, t, s);
    }
  }

  lemma {:induction false} ReloadPrefixes<B(!new), E(!new)>(r: Rule<B, E>, s: seq<B>, i: nat, n: nat)
    requires i <= n <= |s| && Reload(r, s[..n]).Some?
    ensures Reload(r, s[..i]).Some?
    decreases n
  {
    hide Reload;
    if i < n {
      ReloadNext(r, s, n - 1);
      ReloadPrefixes(r, s, i, n - 1);
    }
  }

  lemma ContainsMore<B, E>(r: Rule<B, E>, s: seq<B>, i: nat, h: Hash)
    requires i <= |s| && Contains(r, s[..i], h)
    ensures Contains(r, s, h)
  {
    var k :| 0 <= k < i && r.id(s[..i][k]) == h;
    assert s[k] == s[..i][k];
  }

  lemma ReloadedIsClosed<B(!new), E(!new)>(r: Rule<B, E>, t: Tree<E>, s: seq<B>)
    requires Lawful(r) && Grown(r, t) && ListsSome(r, t, s) && Reload(r, s).Some?
    ensures ParentsListed(r, s)
  {
    hide Lawful, Grown, ListsSome, Reload, Deliver, Contains;
    assert s[..|s|] == s;
    forall i | 0 <= i < |s| && r.id(s[i]) != GenesisId(r)
      ensures r.parent(s[i]) == GenesisId(r) || Contains(r, s, r.parent(s[i]))
    {
      ReloadPrefixes(r, s, i + 1, |s|);
      ReloadPrefixes(r, s, i, |s|);
      ReloadNext(r, s, i);
      ReloadedPart(r, t, s, i);
      assert Accepts(r, Reload(r, s[..i]).value, s[i]);
      if Contains(r, s[..i], r.parent(s[i])) { ContainsMore(r, s, i, r.parent(s[i])); }
    }
  }

  /** Replaying some of the stored blocks by height succeeds exactly when each one's parent is among them, and then
      yields the part of the tree that they make up, with its own best tip. */
  lemma ReloadIffParentsListed<B(!new), E(!new)>(r: Rule<B, E>, t: Tree<E>, s: seq<B>)
    requires Lawful(r) && Grown(r, t) && ListsSome(r, t, s) && ByHeight(r, s)
    ensures Reload(r, s).Some? <==> ParentsListed(r, s)
    ensures Reload(r, s).Some? ==> PartOf(r, Reload(r, s).value, t, s)
  {
    hide Lawful, Grown, ListsSome, Reload, PartOf, ParentsListed, ByHeight;
    assert s[..|s|] == s;
    if ParentsListed(r, s) { ClosedReloads(r, t, s, |s|); }
    if Reload(r, s).Some? {
      ReloadedIsClosed(r, t, s);
      ReloadedPart(r, t, s, |s|);
    }
  }

  lemma WholeTreeListed<B(!new), E(!new)>(r: Rule<B, E>, t: Tree<E>, s: seq<B>)
    requires Lawful(r) && Grown(r, t) && Lists(r, t, s)
    ensures ListsSome(r, t, s) && ParentsListed(r, s) && forall h | h in t.entries :: Contains(r, s, h)
  {
    forall h | h in t.entries ensures Contains(r, s, h) {
      Rooted(r, t, h);
      var k :| 0 <= k < |s| && s[k] == r.block(t.entries[h]);
    }
    forall i | 0 <= i < |s| && r.id(s[i]) != GenesisId(r) ensures Contains(r, s, r.parent(s[i])) {
      Rooted(r, t, r.id(s[i]));
    }
  }

  /** Replaying all stored blocks by height restores the very same tree. */
  lemma RestartRestores<B(!new), E(!new)>(r: Rule<B, E>, t: Tree<E>, s: seq<B>)
    requires Lawful(r) && Grown(r, t) && Lists(r, t, s) && ByHeight(r, s)
    ensures Reload(r, s) == Some(t)
  {
    hide Lawful, Reload, ParentsListed, ByHeight, Contains;
    WholeTreeListed(r, t, s);
    ReloadIffParentsListed(r, t, s);
    var u := Reload(r, s).value;
    MutualInclusion(u, t);
    BestTipUnique(r, u, t);
  }

  // ---------------------------------------------------------------- synchronisation

  datatype Progress<+E> = Progress(tree: Tree<E>, ok: bool)

  /** Accepting a peer's blocks in order, stopping with an exception at the first refusal. */
  ghost function Sync<B, E>(r: Rule<B, E>, t: Tree<E>, s: seq<B>): (p: Progress<E>)
    requires t.tip in t.entries
    ensures p.tree.tip in p.tree.entries
  {
    if s == [] then Progress(t, true)
    else
      var p := Sync(r, t, s[..|s| - 1]);
      var b := s[|s| - 1];
      if !p.ok then p
      else if Accepts(r, p.tree, b) then Progress(Deliver(r, p.tree, b), true)
      else Progress(p.tree, false)
  }

  ghost function Blocks<B, E>(r: Rule<B, E>, t: Tree<E>): set<B>
  {
    set h | h in t.entries :: r.block(t.entries[h])
  }

  /** Everything a synchronised node holds, it held before or the peer sent it, with the peer's entry. */
  ghost predicate HoldsOnly<E>(u: Tree<E>, a: Tree<E>, b: Tree<E>)
  {
    forall h | h in u.entries ::
      (h in a.entries && u.entries[h] == a.entries[h]) || (h in b.entries && u.entries[h] == b.entries[h])
  }

  /** Whatever a peer sends, a synchronising node keeps its invariant and its tip never loses rank. */
  lemma {:induction false} SyncGrows<B(!new), E(!new)>(r: Rule<B, E>, t: Tree<E>, s: seq<B>)
    requires Lawful(r) && Grown(r, t)
    ensures Grown(r, Sync(r, t, s).tree)
    ensures Includes(t, Sync(r, t, s).tree) && RankNotLower(r, t, Sync(r, t, s).tree)
  {
    if s != [] {
      SyncGrows(r, t, s[..|s| - 1]);
      DeliverGrows(r, Sync(r, t, s[..|s| - 1]).tree, s[|s| - 1]);
    }
  }

  /** An honest peer's branch is accepted whole, and gives each block the entry the peer has for it. */
  lemma {:induction false} BranchAccepted<B(!new), E(!new)>(r: Rule<B, E>, a: Tree<E>, b: Tree<E>, h: Hash)
    requires Lawful(r) && Grown(r, a) && Grown(r, b) && h in b.entries
    requires !Clash(r, Blocks(r, a) + Blocks(r, b))
    ensures var p := Sync(r, a, Branch(r, b, h));
            p.ok && h in p.tree.entries && p.tree.entries[h] == b.entries[h] && HoldsOnly(p.tree, a, b)
    decreases r.height(r.block(b.entries[h]))
  {
    Rooted(r, b, h);
    if h != GenesisId(r) {
      assert Justified(r, b, h);
      var q := r.parent(r.block(b.entries[h]));
      BranchAccepted(r, a, b, q);
      var s := Branch(r, b, h);
      assert s[..|s| - 1] == Branch(r, b, q);
      SyncGrows(r, a, Branch(r, b, q));
      var u := Sync(r, a, Branch(r, b, q)).tree;
      assert Accepts(r, u, r.block(b.entries[h]));
      if h in u.entries {
        assert Justified(r, u, h);
        assert r.block(u.entries[h]) in Blocks(r, a) + Blocks(r, b);
        assert r.block(b.entries[h]) in Blocks(r, a) + Blocks(r, b);
      }
    }
  }

  /** The better of two heads. */
  ghost function BetterTip<B, E>(r: Rule<B, E>, a: Tree<E>, b: Tree<E>): Hash
    requires a.tip in a.entries && b.tip in b.entries
  {
    if Wins(r.work(b.entries[b.tip]), b.tip, r.work(a.entries[a.tip]), a.tip) then b.tip else a.tip
  }

  /** After synchronising from an honest peer, a node's tip is the better of the two. */
  lemma SyncTakesBetterTip<B(!new), E(!new)>(r: Rule<B, E>, a: Tree<E>, b: Tree<E>)
    requires Lawful(r) && Grown(r, a) && Grown(r, b)
    requires !Clash(r, Blocks(r, a) + Blocks(r, b))
    ensures var p := Sync(r, a, Branch(r, b, b.tip));
            && p.ok && Grown(r, p.tree) && HoldsOnly(p.tree, a, b)
            && p.tree.tip == BetterTip(r, a, b)
            && b.tip in p.tree.entries && p.tree.entries[b.tip] == b.entries[b.tip]
  {
    BranchAccepted(r, a, b, b.tip);
    SyncGrows(r, a, Branch(r, b, b.tip));
  }

  /** A synchronises from B, then B from A: both end on the better tip, with the same entry for it. */
  lemma MutualSync<B(!new), E(!new)>(r: Rule<B, E>, a: Tree<E>, b: Tree<E>)
    requires Lawful(r) && Grown(r, a) && Grown(r, b)
    requires !Clash(r, Blocks(r, a) + Blocks(r, b))
    ensures var p := Sync(r, a, Branch(r, b, b.tip));
            && p.ok && Grown(r, p.tree)
            && var q := Sync(r, b, Branch(r, p.tree, p.tree.tip));
            && q.ok && Grown(r, q.tree)
            && p.tree.tip == q.tree.tip == BetterTip(r, a, b)
            && p.tree.entries[p.tree.tip] == q.tree.entries[q.tree.tip]
  {
    SyncTakesBetterTip(r, a, b);
    var u := Sync(r, a, Branch(r, b, b.tip)).tree;
    forall x | x in Blocks(r, u)
      ensures x in Blocks(r, a) + Blocks(r, b)
    {
    }
    assert Blocks(r, b) + Blocks(r, u) <= Blocks(r, a) + Blocks(r, b);
    SyncTakesBetterTip(r, b, u);
  }

  // ---------------------------------------------------------------- steady work

  /** The genesis weighs nothing and every admitted block adds the same positive work. */
  ghost predicate SteadyWork<B(!new), E(!new)>(r: Rule<B, E>, w: int)
  {
    && w >= 1 && r.work(r.genesis) == 0
    && forall e, b {:trigger r.step(e, b)} | r.step(e, b).Some? :: r.work(r.step(e, b).value) == r.work(e) + w
  }

  lemma ParentWork<B(!new), E(!new)>(r: Rule<B, E>, t: Tree<E>, h: Hash, w: int)
    requires Lawful(r) && Grown(r, t) && h in t.entries && SteadyWork(r, w)
    ensures r.height(r.block(t.entries[h])) >= 0
    ensures h == GenesisId(r) ==> r.work(t.entries[h]) == 0 && r.height(r.block(t.entries[h])) == 0
    ensures h != GenesisId(r) ==>
              var p := r.parent(r.block(t.entries[h]));
              && p in t.entries && r.work(t.entries[h]) == r.work(t.entries[p]) + w
              && r.height(r.block(t.entries[h])) == r.height(r.block(t.entries[p])) + 1
  {
    Rooted(r, t, h);
    assert h != GenesisId(r) ==> Justified(r, t, h);
  }

  lemma {:induction false} WorkIsHeight<B(!new), E(!new)>(r: Rule<B, E>, t: Tree<E>, h: Hash, w: int)
    requires Lawful(r) && Grown(r, t) && h in t.entries && SteadyWork(r, w)
    ensures r.height(r.block(t.entries[h])) >= 0
    ensures r.work(t.entries[h]) == r.height(r.block(t.entries[h])) * w
    decreases if h in t.entries then r.height(r.block(t.entries[h])) else 0
  {
    hide Lawful, Grown, SteadyWork, GenesisId;
    ParentWork(r, t, h, w);
    if h != GenesisId(r) {
      var p := r.parent(r.block(t.entries[h]));
      ParentWork(r, t, p, w);
      WorkIsHeight(r, t, p, w);
      Numerals.AddOne(r.height(r.block(t.entries[p])), w);
    }
  }

  lemma TipBeats<B, E>(r: Rule<B, E>, t: Tree<E>, h: Hash)
    requires Grown(r, t) && h in t.entries
    ensures t.tip in t.entries && (h == t.tip || Wins(r.work(t.entries[t.tip]), t.tip, r.work(t.entries[h]), h))
  {
  }

  /** Then the best tip is a highest block, and of those the one with the smallest identifier. */
  lemma SteadyTipIsHighest<B(!new), E(!new)>(r: Rule<B, E>, t: Tree<E>, h: Hash, w: int)
    requires Lawful(r) && Grown(r, t) && h in t.entries && SteadyWork(r, w)
    ensures t.tip in t.entries && r.height(r.block(t.entries[h])) <= r.height(r.block(t.entries[t.tip]))
    ensures r.height(r.block(t.entries[h])) == r.height(r.block(t.entries[t.tip])) ==> t.tip <= h
  {
    hide Lawful, Grown, SteadyWork;
    assert w >= 1 by { WorkPositive(r, w); }
    TipBeats(r, t, h);
    WorkIsHeight(r, t, h, w);
    WorkIsHeight(r, t, t.tip, w);
    Numerals.ProductGrows(r.height(r.block(t.entries[t.tip])), r.height(r.block(t.entries[h])), w);
  }

  lemma WorkPositive<B(!new), E(!new)>(r: Rule<B, E>, w: int)
    requires SteadyWork(r, w)
    ensures w >= 1
  {
  }
}
