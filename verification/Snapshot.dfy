/** Signed lists of migration sources: normal order, the Merkle root over the entries and the manifest hash. */
module Snapshot {
  import opened Results
  import opened Utf8

  datatype Status = Active | Quarantined | Revoked | OtherStatus(text: Text)

  datatype Entry = Entry(
    address: Text, provider: Text, amount: int, source: Text, format: Text, status: Status, reason: Text,
    reviewedAt: int)

  datatype Bundle = Bundle(network: Text, ref: Text, generatedAt: int, entries: seq<Entry>, manifestHash: Text)

  datatype Review = Review(status: Status, reason: Option<Text>, reviewedAt: Option<int>)

  /** What an entry commits to: the source defaults to the address, an untouched review is left out. */
  datatype Payload = Payload(address: Text, provider: Text, amount: int, source: Text, format: Text,
                             review: Option<Review>)

  datatype Manifest = Manifest(network: Text, ref: Text, generatedAt: int, count: int, total: int, root: Text)

  /** The hash, as hexadecimal text, the canonical JSON texts it is taken of, and what counts as white space. */
  datatype Codec = Codec(
    hash: Text -> Text, entryText: Payload -> Text, manifestText: Manifest -> Text, blank: Text -> bool)

  /** Hashes have 64 characters and different dictionaries have different canonical texts. */
  ghost predicate CodecLaw(c: Codec)
  {
    && (forall x: Text :: |c.hash(x)| == 64)
    && (forall x, y :: c.entryText(x) == c.entryText(y) ==> x == y)
    && (forall x, y :: c.manifestText(x) == c.manifestText(y) ==> x == y)
  }

  function PayloadOf(e: Entry): Payload
  {
    Payload(e.address, e.provider, e.amount, if e.source == [] then e.address else e.source, e.format,
            if e.status == Active && e.reason == [] && e.reviewedAt == 0 then None
            else Some(Review(e.status, if e.reason == [] then None else Some(e.reason),
                             if e.reviewedAt == 0 then None else Some(e.reviewedAt))))
  }

  /** The entry with its default source written out. */
  function Defaulted(e: Entry): Entry { e.(source := if e.source == [] then e.address else e.source) }

  lemma PayloadDetermines(e: Entry, f: Entry)
    ensures PayloadOf(e) == PayloadOf(f) <==> Defaulted(e) == Defaulted(f)
  {
  }

  // ---------------------------------------------------------------- normal order

  predicate KeyLess(e: Entry, f: Entry)
  {
    Less(e.address, f.address)
    || (e.address == f.address
        && (Less(e.provider, f.provider) || (e.provider == f.provider && e.amount < f.amount)))
  }

  function Insert(s: seq<Entry>, e: Entry): seq<Entry>
  {
    if s == [] || !KeyLess(e, s[|s| - 1]) then s + [e] else Insert(s[..|s| - 1], e) + [s[|s| - 1]]
  }

  /** A stable sort by address, provider and amount. */
  function Normalized(s: seq<Entry>): seq<Entry>
  {
    if s == [] then [] else Insert(Normalized(s[..|s| - 1]), s[|s| - 1])
  }

  predicate Ordered(s: seq<Entry>) { forall i, j | 0 <= i < j < |s| :: Less(s[i].address, s[j].address) }

  predicate DistinctAddresses(s: seq<Entry>) { forall i, j | 0 <= i < j < |s| :: s[i].address != s[j].address }

  lemma {:induction false} InsertKeeps(s: seq<Entry>, e: Entry)
    ensures multiset(Insert(s, e)) == multiset(s) + multiset{e} && |Insert(s, e)| == |s| + 1
  {
    if s != [] {
      assert s == s[..|s| - 1] + [s[|s| - 1]];
      InsertKeeps(s[..|s| - 1], e);
    }
  }

  lemma {:induction false} SortKeeps(s: seq<Entry>)
    ensures multiset(Normalized(s)) == multiset(s) && |Normalized(s)| == |s|
  {
    if s != [] {
      assert s == s[..|s| - 1] + [s[|s| - 1]];
      SortKeeps(s[..|s| - 1]);
      InsertKeeps(Normalized(s[..|s| - 1]), s[|s| - 1]);
    }
  }

  lemma SameElements(s: seq<Entry>, t: seq<Entry>)
    requires multiset(s) == multiset(t)
    ensures |s| == |t| && forall x :: x in s <==> x in t
  {
    assert |multiset(s)| == |s| && |multiset(t)| == |t|;
    assert forall x :: x in s <==> x in multiset(s);
    assert forall x :: x in t <==> x in multiset(t);
  }

  lemma {:induction false} InsertOrders(s: seq<Entry>, e: Entry)
    requires Ordered(s) && forall i | 0 <= i < |s| :: s[i].address != e.address
    ensures Ordered(Insert(s, e))
  {
    if s != [] {
      var front, last := s[..|s| - 1], s[|s| - 1];
      LessTotal(e.address, last.address);
      if KeyLess(e, last) {
        InsertOrders(front, e);
        InsertKeeps(front, e);
        SameElements(Insert(front, e), front + [e]);
        var t := Insert(front, e);
        forall i | 0 <= i < |t| ensures Less(t[i].address, last.address) {
          assert t[i] in front + [e];
        }
      } else {
        forall i | 0 <= i < |s| ensures Less(s[i].address, e.address) {
          if i < |s| - 1 { LessTransitive(s[i].address, last.address, e.address); }
        }
      }
    }
  }

  lemma {:induction false} SortOrders(s: seq<Entry>)
    requires DistinctAddresses(s)
    ensures Ordered(Normalized(s))
  {
    if s != [] {
      var front, e := s[..|s| - 1], s[|s| - 1];
      SortOrders(front);
      SortKeeps(front);
      SameElements(Normalized(front), front);
      forall i | 0 <= i < |front| ensures Normalized(front)[i].address != e.address {
        assert Normalized(front)[i] in front;
      }
      InsertOrders(Normalized(front), e);
    }
  }

  lemma {:induction false} OrderedUnique(s: seq<Entry>, t: seq<Entry>)
    requires Ordered(s) && Ordered(t) && |s| == |t| && forall x :: x in s <==> x in t
    ensures s == t
  {
    if s != [] {
      assert s[0] in t && t[0] in s;
      LessTotal(s[0].address, t[0].address);
      forall x ensures x in s[1..] <==> x in t[1..] {
        OrderedTail(s, x);
        OrderedTail(t, x);
      }
      OrderedUnique(s[1..], t[1..]);
    }
  }

  lemma OrderedTail(s: seq<Entry>, x: Entry)
    requires Ordered(s) && s != []
    ensures x in s[1..] <==> x in s && x != s[0]
  {
    LessTotal(s[0].address, s[0].address);
    assert s == [s[0]] + s[1..];
  }

  /** The normal form does not depend on the order in which entries were listed. */
  lemma NormalFormUnique(s: seq<Entry>, t: seq<Entry>)
    requires multiset(s) == multiset(t) && DistinctAddresses(s) && DistinctAddresses(t)
    ensures Normalized(s) == Normalized(t)
  {
    SortKeeps(s);
    SortKeeps(t);
    SortOrders(s);
    SortOrders(t);
    SameElements(Normalized(s), Normalized(t));
    OrderedUnique(Normalized(s), Normalized(t));
  }

  lemma DistinctIsOfMultiset(s: seq<Entry>, t: seq<Entry>)
    requires multiset(s) == multiset(t) && DistinctAddresses(s)
    ensures DistinctAddresses(t)
  {
    SortKeeps(s);
    SortOrders(s);
    var n := Normalized(s);
    forall i, j | 0 <= i < j < |t| ensures t[i].address != t[j].address {
      if t[i].address == t[j].address {
        SameElements(n, t);
        assert t[i] in n && t[j] in n;
        var x :| 0 <= x < |n| && n[x] == t[i];
        var y :| 0 <= y < |n| && n[y] == t[j];
        LessTotal(n[x].address, n[y].address);
        assert x == y;
        TwiceInMultiset(t, i, j);
        OnceInOrdered(n, x);
        assert false;
      }
    }
  }

  lemma TwiceInMultiset(t: seq<Entry>, i: int, j: int)
    requires 0 <= i < j < |t| && t[i] == t[j]
    ensures multiset(t)[t[i]] >= 2
  {
    var a, b := t[..j], t[j..];
    assert t == a + b;
    assert a[i] == t[i] && b[0] == t[i];
    assert t[i] in a && t[i] in b;
    assert multiset(t) == multiset(a) + multiset(b);
  }

  lemma OnceInOrdered(n: seq<Entry>, x: int)
    requires Ordered(n) && 0 <= x < |n|
    ensures multiset(n)[n[x]] == 1
  {
    var a, b := n[..x], n[x + 1..];
    assert n == a + [n[x]] + b;
    LessTotal(n[x].address, n[x].address);
    assert n[x] !in a && n[x] !in b;
    assert multiset(n) == multiset(a) + multiset{n[x]} + multiset(b);
  }

  // ---------------------------------------------------------------- the commitment

  const SEPARATOR: int := 58

  function PairHash(c: Codec, l: Text, r: Text): Text { c.hash(l + [SEPARATOR] + r) }

  /** One level up; the last hash of an odd level is paired with itself. */
  function Pairs(c: Codec, level: seq<Text>): (up: seq<Text>)
    ensures |up| == (|level| + 1) / 2
  {
    if level == [] then []
    else if |level| == 1 then [PairHash(c, level[0], level[0])]
    else [PairHash(c, level[0], level[1])] + Pairs(c, level[2..])
  }

  function RootOf(c: Codec, level: seq<Text>): Text
    requires level != []
    decreases |level|
  {
    if |level| == 1 then level[0] else RootOf(c, Pairs(c, level))
  }

  function Leaves(c: Codec, s: seq<Entry>): (l: seq<Text>)
    ensures |l| == |s|
  {
    if s == [] then [] else Leaves(c, s[..|s| - 1]) + [c.hash(c.entryText(PayloadOf(s[|s| - 1])))]
  }

  function EntriesRoot(c: Codec, b: Bundle): Text
    requires b.entries != []
  {
    SortKeeps(b.entries);
    RootOf(c, Leaves(c, Normalized(b.entries)))
  }

  function Sum(s: seq<Entry>): int { if s == [] then 0 else Sum(s[..|s| - 1]) + s[|s| - 1].amount }

  function ManifestHash(c: Codec, b: Bundle): Text
    requires b.entries != []
  {
    c.hash(ManifestText(c, b))
  }

  lemma {:induction false} SumInsert(s: seq<Entry>, e: Entry)
    ensures Sum(Insert(s, e)) == Sum(s) + e.amount
  {
    if s != [] && KeyLess(e, s[|s| - 1]) {
      SumInsert(s[..|s| - 1], e);
      var t := Insert(s[..|s| - 1], e);
      assert (t + [s[|s| - 1]])[..|t|] == t;
    } else {
      assert (s + [e])[..|s|] == s;
    }
  }

  lemma {:induction false} SumNormalized(s: seq<Entry>)
    ensures Sum(Normalized(s)) == Sum(s)
  {
    if s != [] {
      SumNormalized(s[..|s| - 1]);
      SumInsert(Normalized(s[..|s| - 1]), s[|s| - 1]);
    }
  }

  /** The manifest hash does not depend on the order of the entries. */
  lemma HashIgnoresOrder(c: Codec, b: Bundle, entries: seq<Entry>)
    requires b.entries != [] && DistinctAddresses(b.entries) && multiset(entries) == multiset(b.entries)
    ensures entries != [] && ManifestHash(c, b.(entries := entries)) == ManifestHash(c, b)
  {
    SameElements(entries, b.entries);
    DistinctIsOfMultiset(b.entries, entries);
    NormalFormUnique(b.entries, entries);
    SumNormalized(b.entries);
    SumNormalized(entries);
  }

  predicate Collides(c: Codec, x: Text, y: Text) { x != y && c.hash(x) == c.hash(y) }

  lemma PairTextInjective(a: Text, b: Text, x: Text, y: Text)
    requires |a| == 64 && |x| == 64 && a + [SEPARATOR] + b == x + [SEPARATOR] + y
    ensures a == x && b == y
  {
    var s, t := a + [SEPARATOR] + b, x + [SEPARATOR] + y;
    assert s[..64] == a && t[..64] == x && s[65..] == b && t[65..] == y;
  }

  ghost predicate Wide(level: seq<Text>) { forall i | 0 <= i < |level| :: |level[i]| == 64 }

  lemma {:induction false} PairsWide(c: Codec, level: seq<Text>)
    requires CodecLaw(c)
    ensures Wide(Pairs(c, level))
  {
    if |level| > 1 { PairsWide(c, level[2..]); }
  }

  /** The text hashed for pair `i` of a level. */
  function PairText(level: seq<Text>, i: nat): Text
    requires 2 * i < |level|
  {
    level[2 * i] + [SEPARATOR] + if 2 * i + 1 < |level| then level[2 * i + 1] else level[2 * i]
  }

  /** A pair of one level and the pair at the same place of the other are different texts of one hash. */
  predicate LevelsCollide(c: Codec, p: seq<Text>, q: seq<Text>)
    requires |p| == |q|
  {
    exists i | 0 <= i < |p| && 2 * i < |p| :: Collides(c, PairText(p, i), PairText(q, i))
  }

  /** So it is at some level of the two trees above these leaves. */
  predicate TreesCollide(c: Codec, p: seq<Text>, q: seq<Text>)
    requires |p| == |q|
    decreases |p|
  {
    |p| > 1 && (LevelsCollide(c, p, q) || TreesCollide(c, Pairs(c, p), Pairs(c, q)))
  }

  lemma {:induction false} PairsAt(c: Codec, level: seq<Text>, i: nat)
    requires 2 * i < |level|
    ensures Pairs(c, level)[i] == c.hash(PairText(level, i))
    decreases i
  {
    if i > 0 {
      PairsAt(c, level[2..], i - 1);
      assert PairText(level[2..], i - 1) == PairText(level, i);
    }
  }

  lemma PairAgrees(c: Codec, p: seq<Text>, q: seq<Text>, i: nat)
    requires Wide(p) && Wide(q) && |p| == |q| && Pairs(c, p) == Pairs(c, q) && 2 * i < |p|
    requires !Collides(c, PairText(p, i), PairText(q, i))
    ensures p[2 * i] == q[2 * i] && (2 * i + 1 < |p| ==> p[2 * i + 1] == q[2 * i + 1])
  {
    hide Pairs;
    PairsAt(c, p, i);
    PairsAt(c, q, i);
    if 2 * i + 1 < |p| {
      PairTextInjective(p[2 * i], p[2 * i + 1], q[2 * i], q[2 * i + 1]);
    } else {
      PairTextInjective(p[2 * i], p[2 * i], q[2 * i], q[2 * i]);
    }
  }

  /** Two levels of the same length with the same parents are the same, or a pair of them collides. */
  lemma PairsBind(c: Codec, p: seq<Text>, q: seq<Text>)
    requires Wide(p) && Wide(q) && |p| == |q| && Pairs(c, p) == Pairs(c, q)
    ensures p == q || LevelsCollide(c, p, q)
  {
    hide Pairs, PairText, Wide, Collides;
    if !LevelsCollide(c, p, q) {
      forall k | 0 <= k < |p| ensures p[k] == q[k] {
        assert k == 2 * (k / 2) || k == 2 * (k / 2) + 1;
        PairAgrees(c, p, q, k / 2);
      }
    }
  }

  /** Two leaf lists of the same length with the same root are the same, or some pair of their trees collides. */
  lemma {:induction false} RootBinds(c: Codec, p: seq<Text>, q: seq<Text>)
    requires CodecLaw(c) && Wide(p) && Wide(q) && |p| == |q| > 0 && RootOf(c, p) == RootOf(c, q)
    ensures p == q || TreesCollide(c, p, q)
    decreases |p|
  {
    hide LevelsCollide;
    if |p| > 1 {
      PairsWide(c, p);
      PairsWide(c, q);
      RootBinds(c, Pairs(c, p), Pairs(c, q));
      if Pairs(c, p) == Pairs(c, q) { PairsBind(c, p, q); }
    }
  }

  /** Without the count duplication would not bind: three leaves and the same with the last one repeated share a
      root. */
  lemma DuplicationSharesRoot(c: Codec, l: Text, m: Text, r: Text)
    ensures RootOf(c, [l, m, r]) == RootOf(c, [l, m, r, r])
  {
    var p, q := [l, m, r], [l, m, r, r];
    assert p[2..] == [r] && q[2..] == [r, r] && [r, r][2..] == [];
    assert Pairs(c, [r]) == [PairHash(c, r, r)] == Pairs(c, [r, r]);
    assert Pairs(c, p) == Pairs(c, q);
  }

  function DefaultedAll(s: seq<Entry>): (r: seq<Entry>)
    ensures |r| == |s| && forall i | 0 <= i < |s| :: r[i] == Defaulted(s[i])
  {
    if s == [] then [] else DefaultedAll(s[..|s| - 1]) + [Defaulted(s[|s| - 1])]
  }

  /** The texts of two entries at the same place differ and have one hash. */
  predicate EntriesCollide(c: Codec, s: seq<Entry>, t: seq<Entry>)
    requires |s| == |t|
  {
    exists i | 0 <= i < |s| :: Collides(c, c.entryText(PayloadOf(s[i])), c.entryText(PayloadOf(t[i])))
  }

  lemma {:induction false} LeafAt(c: Codec, s: seq<Entry>, i: nat)
    requires i < |s|
    ensures Leaves(c, s)[i] == c.hash(c.entryText(PayloadOf(s[i])))
  {
    if i < |s| - 1 { LeafAt(c, s[..|s| - 1], i); }
  }

  /** Equal leaf hashes mean the same entries up to the default source, or two entry texts collide. */
  lemma LeavesBind(c: Codec, s: seq<Entry>, t: seq<Entry>)
    requires CodecLaw(c) && |s| == |t| && Leaves(c, s) == Leaves(c, t)
    ensures DefaultedAll(s) == DefaultedAll(t) || EntriesCollide(c, s, t)
  {
    if !EntriesCollide(c, s, t) {
      forall i | 0 <= i < |s| ensures Defaulted(s[i]) == Defaulted(t[i]) {
        LeafAt(c, s, i);
        LeafAt(c, t, i);
        PayloadDetermines(s[i], t[i]);
      }
    }
  }

  lemma {:induction false} LeavesWide(c: Codec, s: seq<Entry>)
    requires CodecLaw(c)
    ensures Wide(Leaves(c, s))
  {
    if s != [] { LeavesWide(c, s[..|s| - 1]); }
  }

  /** The text behind a bundle's manifest hash. */
  function ManifestText(c: Codec, b: Bundle): Text
    requires b.entries != []
  {
    c.manifestText(Manifest(b.network, b.ref, b.generatedAt, |b.entries|, Sum(b.entries), EntriesRoot(c, b)))
  }

  function LeavesOf(c: Codec, b: Bundle): (l: seq<Text>)
    ensures |l| == |b.entries|
  {
    SortKeeps(b.entries);
    Leaves(c, Normalized(b.entries))
  }

  /** Two hashed texts of these bundles collide: their manifests, a pair of their trees, or two of their entries. */
  predicate BundlesCollide(c: Codec, b: Bundle, d: Bundle)
    requires b.entries != [] && d.entries != []
  {
    || Collides(c, ManifestText(c, b), ManifestText(c, d))
    || (|b.entries| == |d.entries| && TreesCollide(c, LeavesOf(c, b), LeavesOf(c, d)))
    || (|Normalized(b.entries)| == |Normalized(d.entries)|
        && EntriesCollide(c, Normalized(b.entries), Normalized(d.entries)))
  }

  /** Equal manifest hashes mean the same header and the same entries up to the default source address, or texts of
      these two bundles that collide. */
  lemma ManifestBinds(c: Codec, b: Bundle, d: Bundle)
    requires CodecLaw(c) && b.entries != [] && d.entries != [] && ManifestHash(c, b) == ManifestHash(c, d)
    ensures || BundlesCollide(c, b, d)
            || (b.network == d.network && b.ref == d.ref && b.generatedAt == d.generatedAt
                && DefaultedAll(Normalized(b.entries)) == DefaultedAll(Normalized(d.entries)))
  {
    hide TreesCollide, EntriesCollide, DefaultedAll, Normalized;
    if ManifestText(c, b) == ManifestText(c, d) {
      SortKeeps(b.entries);
      SortKeeps(d.entries);
      LeavesWide(c, Normalized(b.entries));
      LeavesWide(c, Normalized(d.entries));
      RootBinds(c, LeavesOf(c, b), LeavesOf(c, d));
      if LeavesOf(c, b) == LeavesOf(c, d) { LeavesBind(c, Normalized(b.entries), Normalized(d.entries)); }
    }
  }

  // ---------------------------------------------------------------- validation

  predicate RefStart(ch: int) { 97 <= ch <= 122 || 48 <= ch <= 57 }

  predicate RefChar(ch: int) { RefStart(ch) || ch == 46 || ch == 95 || ch == 45 }

  /** 1 to 96 lower-case letters, digits and `._-`, starting with a letter or digit, without two dots in a row. */
  predicate RefValid(ref: Text)
  {
    && 1 <= |ref| <= 96 && RefStart(ref[0])
    && (forall i | 0 <= i < |ref| :: RefChar(ref[i]))
    && forall i | 0 < i < |ref| :: !(ref[i - 1] == 46 && ref[i] == 46)
  }

  predicate EntryValid(c: Codec, e: Entry)
  {
    && e.address != [] && e.provider != [] && e.amount > 0 && !e.status.OtherStatus?
    && (e.status != Active ==> !c.blank(e.reason))
  }

  predicate BundleValid(c: Codec, b: Bundle)
  {
    && b.network != [] && RefValid(b.ref) && b.entries != []
    && (forall i | 0 <= i < |b.entries| :: EntryValid(c, b.entries[i]))
    && DistinctAddresses(b.entries)
    && (b.manifestHash == [] || b.manifestHash == ManifestHash(c, b))
  }

  function Finalized(c: Codec, b: Bundle): Bundle
    requires b.entries != []
  {
    b.(entries := Normalized(b.entries), manifestHash := ManifestHash(c, b))
  }

  /** The manifest's total adds up however the entries are split, and one entry adds its amount. */
  lemma {:induction false} SumConcat(s: seq<Entry>, t: seq<Entry>)
    ensures Sum(s + t) == Sum(s) + Sum(t)
    ensures |t| == 1 ==> Sum(t) == t[0].amount
  {
    if t == [] {
      assert s + t == s;
    } else {
      assert t[..0] == [];
      assert (s + t)[..|s + t| - 1] == s + t[..|t| - 1];
      SumConcat(s, t[..|t| - 1]);
    }
  }

  lemma {:induction false} SumGrows(s: seq<Entry>)
    requires forall i | 0 <= i < |s| :: s[i].amount >= 1
    ensures Sum(s) >= |s|
  {
    if s != [] { SumGrows(s[..|s| - 1]); }
  }

  /** A valid bundle names every address once, with a provider, a positive amount and a known status, gives a reason
      for every source it withholds, and credits at least one unit an entry in all. */
  lemma ValidBundleMeans(c: Codec, b: Bundle)
    requires BundleValid(c, b)
    ensures b.network != [] && 1 <= |b.ref| <= 96 && |b.entries| >= 1 && Sum(b.entries) >= |b.entries|
    ensures forall i | 0 <= i < |b.entries| ::
              var e := b.entries[i];
              && e.address != [] && e.provider != [] && e.amount >= 1
              && (e.status == Active
                  || ((e.status == Quarantined || e.status == Revoked) && !c.blank(e.reason)))
    ensures forall i, j | 0 <= i < j < |b.entries| :: b.entries[i].address != b.entries[j].address
  {
    SumGrows(b.entries);
  }

  /** Beside the header checks, one entry decides: a bundle of it is valid exactly when it is complete. */
  lemma SingleEntryIff(c: Codec, b: Bundle, e: Entry)
    requires b.network != [] && RefValid(b.ref) && b.entries == [e] && b.manifestHash == []
    ensures BundleValid(c, b)
            <==> && e.address != [] && e.provider != [] && e.amount >= 1
                 && (e.status == Active
                     || ((e.status == Quarantined || e.status == Revoked) && !c.blank(e.reason)))
  {
    assert b.entries[0] == e;
  }

  /** Small trees: one leaf is its root, and the third of three leaves is paired with itself. */
  lemma SmallRoots(c: Codec, l: Text, m: Text, r: Text)
    ensures RootOf(c, [l]) == l && RootOf(c, [l, m]) == c.hash(l + [58] + m)
    ensures RootOf(c, [l, m, r]) == c.hash(c.hash(l + [58] + m) + [58] + c.hash(r + [58] + r))
  {
    assert [l, m][2..] == [] && [l, m, r][2..] == [r];
    assert Pairs(c, [l, m]) == [PairHash(c, l, m)];
    assert Pairs(c, [r]) == [PairHash(c, r, r)];
    var up := [PairHash(c, l, m), PairHash(c, r, r)];
    assert Pairs(c, [l, m, r]) == up;
    assert up[2..] == [];
    assert Pairs(c, up) == [PairHash(c, up[0], up[1])];
    assert RootOf(c, [l, m, r]) == RootOf(c, up) == RootOf(c, Pairs(c, up));
  }

  /** Hashes the pairs of one level, an odd one padded with its last hash. */
  method HashPairs(c: Codec, level: seq<Text>) returns (up: seq<Text>)
    requires level != []
    ensures up == Pairs(c, level)
  {
    hide PairHash;
    PairsPadded(c, level);
    var current := if |level| % 2 == 1 then level + [level[|level| - 1]] else level;
    up := [];
    var i := 0;
    while i < |current|
      invariant 0 <= i <= |current| && i % 2 == 0
      invariant up + Pairs(c, current[i..]) == Pairs(c, current)
      decreases |current| - i
    {
      assert current[i..][2..] == current[i + 2..];
      up := up + [PairHash(c, current[i], current[i + 1])];
      i := i + 2;
    }
  }

  /** The root loop: hash pairs until one hash is left. */
  method ComputeRoot(c: Codec, leaves: seq<Text>) returns (root: Text)
    requires leaves != []
    ensures root == RootOf(c, leaves)
  {
    hide Pairs;
    var current := leaves;
    while |current| > 1
      invariant current != [] && RootOf(c, current) == RootOf(c, leaves)
      decreases |current|
    {
      current := HashPairs(c, current);
    }
    return current[0];
  }

  lemma {:induction false} PairsPadded(c: Codec, level: seq<Text>)
    ensures |level| % 2 == 1 ==> Pairs(c, level + [level[|level| - 1]]) == Pairs(c, level)
  {
    if |level| == 1 {
      assert (level + [level[0]])[2..] == [];
    } else if |level| > 1 {
      assert (level + [level[|level| - 1]])[2..] == level[2..] + [level[|level| - 1]];
      PairsPadded(c, level[2..]);
    }
  }

  method ValidateBundle(c: Codec, b: Bundle) returns (r: Result<Bundle>)
    ensures r.Ok? <==> BundleValid(c, b)
    ensures r.Ok? ==> r.value == Finalized(c, b)
  {
    if b.network == [] { return Rejected("source_network is required"); }
    if !RefValid(b.ref) { return Rejected("snapshot_ref is malformed"); }
    if b.entries == [] { return Rejected("snapshot must contain at least one entry"); }
    var seen: set<Text> := {};
    for i := 0 to |b.entries|
      invariant forall k | 0 <= k < i :: EntryValid(c, b.entries[k])
      invariant seen == set k | 0 <= k < i :: b.entries[k].address
      invariant forall j, k | 0 <= j < k < i :: b.entries[j].address != b.entries[k].address
    {
      var e := b.entries[i];
      if !EntryValid(c, e) { return Rejected("entry is malformed"); }
      if e.address in seen { return Rejected("duplicate classical addresses"); }
      seen := seen + {e.address};
    }
    var finalized := Finalized(c, b);
    if b.manifestHash != [] && b.manifestHash != finalized.manifestHash { return Rejected("manifest_hash mismatch"); }
    return Ok(finalized);
  }

  /** A validated bundle validates again, to itself. */
  lemma FinalizedIsStable(c: Codec, b: Bundle)
    requires BundleValid(c, b)
    ensures Finalized(c, b).entries != [] && BundleValid(c, Finalized(c, b))
    ensures Finalized(c, Finalized(c, b)) == Finalized(c, b)
  {
    hide ManifestHash, EntryValid;
    var s := b.entries;
    SortKeeps(s);
    SameElements(s, Normalized(s));
    DistinctIsOfMultiset(s, Normalized(s));
    NormalFormUnique(Normalized(s), s);
    HashIgnoresOrder(c, b, Normalized(s));
    HashIgnoresField(c, b.(entries := Normalized(s)), ManifestHash(c, b));
    forall i | 0 <= i < |s| ensures EntryValid(c, Normalized(s)[i]) {
      assert Normalized(s)[i] in s;
    }
  }

  lemma HashIgnoresField(c: Codec, b: Bundle, h: Text)
    requires b.entries != []
    ensures ManifestHash(c, b.(manifestHash := h)) == ManifestHash(c, b)
  {
  }
}
