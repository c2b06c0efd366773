/** Choosing inputs for a payment and building the transaction that spends them. */
module CoinSelection {
  import opened Results
  import opened Collections
  import opened Coins
  import opened ChainV1

  datatype Row = Row(point: Outpoint, coin: Coin)

  // ---------------------------------------------------------------- listing

  /** Ascending by amount, then transaction, then output index. */
  predicate RowLess(a: Row, b: Row)
  {
    a.coin.amount < b.coin.amount
    || (a.coin.amount == b.coin.amount
        && (a.point.txId < b.point.txId || (a.point.txId == b.point.txId && a.point.index < b.point.index)))
  }

  /** By transaction, then output index. */
  predicate PointLess(a: Row, b: Row)
  {
    a.point.txId < b.point.txId || (a.point.txId == b.point.txId && a.point.index < b.point.index)
  }

  predicate Before(byAmount: bool, a: Row, b: Row) { if byAmount then RowLess(a, b) else PointLess(a, b) }

  /** An empty address list filters nothing. */
  predicate Listed(m: Utxos, addresses: seq<string>, o: Outpoint)
  {
    o in m && (addresses == [] || m[o].recipient in addresses)
  }

  ghost predicate IsListing(m: Utxos, addresses: seq<string>, s: seq<Row>)
  {
    && (forall i | 0 <= i < |s| :: Listed(m, addresses, s[i].point) && m[s[i].point] == s[i].coin)
    && (forall o | Listed(m, addresses, o) :: Row(o, m[o]) in s)
    && (forall i, j | 0 <= i < j < |s| :: Before(addresses != [], s[i], s[j]))
  }

  function InsertRow(byAmount: bool, s: seq<Row>, r: Row): seq<Row>
  {
    if s == [] || Before(byAmount, s[|s| - 1], r) then s + [r]
    else InsertRow(byAmount, s[..|s| - 1], r) + [s[|s| - 1]]
  }

  lemma {:induction false} InsertSorts(byAmount: bool, s: seq<Row>, r: Row)
    requires forall i, j | 0 <= i < j < |s| :: Before(byAmount, s[i], s[j])
    requires forall i | 0 <= i < |s| :: s[i].point != r.point
    ensures var t := InsertRow(byAmount, s, r);
            && (forall x :: x in t <==> x in s || x == r)
            && forall i, j | 0 <= i < j < |t| :: Before(byAmount, t[i], t[j])
  {
    if s != [] {
      var front, last := s[..|s| - 1], s[|s| - 1];
      assert s == front + [last];
      if Before(byAmount, last, r) {
        assert forall i | 0 <= i < |front| :: Before(byAmount, front[i], last);
      } else {
        InsertSorts(byAmount, front, r);
        var t := InsertRow(byAmount, front, r);
        forall i | 0 <= i < |t| ensures Before(byAmount, t[i], last) {
          assert t[i] in front || t[i] == r;
        }
      }
    }
  }

  /** The rows for an address list in the order the table gives them. */
  method ListUtxos(m: Utxos, addresses: seq<string>) returns (s: seq<Row>)
    ensures IsListing(m, addresses, s)
  {
    s := [];
    var rest := m;
    while rest != map[]
      invariant forall o | o in rest :: o in m && rest[o] == m[o]
      invariant forall i | 0 <= i < |s| ::
                  Listed(m, addresses, s[i].point) && m[s[i].point] == s[i].coin && s[i].point !in rest
      invariant forall o | Listed(m, addresses, o) && o !in rest :: Row(o, m[o]) in s
      invariant forall i, j | 0 <= i < j < |s| :: Before(addresses != [], s[i], s[j])
      decreases |rest|
    {
      var o :| o in rest;
      if addresses == [] || m[o].recipient in addresses {
        InsertSorts(addresses != [], s, Row(o, m[o]));
        ghost var before := s;
        s := InsertRow(addresses != [], s, Row(o, m[o]));
        assert forall x :: x in s <==> x in before || x == Row(o, m[o]);
        forall i | 0 <= i < |s|
          ensures Listed(m, addresses, s[i].point) && m[s[i].point] == s[i].coin && s[i].point !in (rest - {o})
        {
          assert s[i] in before || s[i] == Row(o, m[o]);
        }
      }
      rest := rest - {o};
    }
  }

  // ---------------------------------------------------------------- greedy selection

  /** The live outputs that may be spent now, as one map. */
  ghost function SpendableOf(m: Utxos, addresses: seq<string>, spendable: Outpoint -> bool): Utxos
  {
    map o | o in m && Listed(m, addresses, o) && spendable(o) :: m[o]
  }

  function Points(s: seq<Row>): (p: seq<Outpoint>)
    ensures |p| == |s| && forall i | 0 <= i < |s| :: p[i] == s[i].point
  {
    if s == [] then [] else Points(s[..|s| - 1]) + [s[|s| - 1].point]
  }

  /** The spendable rows of a listing from its end to its beginning. */
  function Chosen(s: seq<Row>, spendable: Outpoint -> bool): seq<Row>
  {
    if s == [] then []
    else (if spendable(s[|s| - 1].point) then [s[|s| - 1]] else []) + Chosen(s[..|s| - 1], spendable)
  }

  lemma {:induction false} ChosenContent(s: seq<Row>, spendable: Outpoint -> bool)
    ensures forall x :: x in Chosen(s, spendable) <==> x in s && spendable(x.point)
  {
    if s != [] {
      ChosenContent(s[..|s| - 1], spendable);
      assert s == s[..|s| - 1] + [s[|s| - 1]];
    }
  }

  ghost predicate Descending(s: seq<Row>) { forall i, j | 0 <= i < j < |s| :: s[i].coin.amount >= s[j].coin.amount }

  /** A row listed before another is of another output and not larger when the listing is by amount. */
  lemma ListedBefore(m: Utxos, byAmount: bool, s: seq<Row>, r: Row)
    requires s != [] && r in s[..|s| - 1]
    requires forall i | 0 <= i < |s| :: s[i].point in m && m[s[i].point] == s[i].coin
    requires forall i, j | 0 <= i < j < |s| :: Before(byAmount, s[i], s[j])
    ensures r.point != s[|s| - 1].point && (byAmount ==> r.coin.amount <= s[|s| - 1].coin.amount)
  {
    var j :| 0 <= j < |s| - 1 && s[j] == r;
    assert Before(byAmount, s[j], s[|s| - 1]);
  }

  /** Putting a new, not smaller row in front. */
  lemma RowInFront(r: Row, rest: seq<Row>)
    requires Distinct(Points(rest)) && forall x | x in rest :: x.point != r.point
    ensures Distinct(Points([r] + rest))
    ensures Descending(rest) && (forall x | x in rest :: x.coin.amount <= r.coin.amount) ==> Descending([r] + rest)
  {
    var s := [r] + rest;
    forall i, j | 0 <= i < j < |s| ensures Points(s)[i] != Points(s)[j] {
      assert s[j] in rest;
      assert i > 0 ==> Points(rest)[i - 1] != Points(rest)[j - 1];
    }
  }

  lemma NoRows()
    ensures Distinct(Points([])) && Descending([])
  {
  }

  lemma {:induction false} ChosenOrder(m: Utxos, byAmount: bool, s: seq<Row>, spendable: Outpoint -> bool)
    requires forall i | 0 <= i < |s| :: s[i].point in m && m[s[i].point] == s[i].coin
    requires forall i, j | 0 <= i < j < |s| :: Before(byAmount, s[i], s[j])
    ensures Distinct(Points(Chosen(s, spendable)))
    ensures byAmount ==> Descending(Chosen(s, spendable))
  {
    hide Before, Points, Distinct, Descending;
    NoRows();
    if s != [] {
      var front, last := s[..|s| - 1], s[|s| - 1];
      var rest := Chosen(front, spendable);
      ChosenOrder(m, byAmount, front, spendable);
      ChosenContent(front, spendable);
      if spendable(last.point) {
        forall x | x in rest
          ensures x.point != last.point && (byAmount ==> x.coin.amount <= last.coin.amount)
        {
          ListedBefore(m, byAmount, s, x);
        }
        RowInFront(last, rest);
      } else {
        assert [] + rest == rest;
      }
    }
  }

  /** The part of a view that lies in a set of outpoints. */
  ghost function Only(m: Utxos, t: set<Outpoint>): Utxos { map o | o in m && o in t :: m[o] }

  lemma OnlyRemove(m: Utxos, t: set<Outpoint>, y: Outpoint)
    requires y in m && y in t
    ensures Total(Only(m, t)) == m[y].amount + Total(Only(m, t - {y}))
  {
    TotalRemove(Only(m, t), y);
    assert Only(m, t) - {y} == Only(m, t - {y});
  }

  lemma {:induction false} OnlyTotal(m: Utxos, p: seq<Outpoint>)
    requires Distinct(p) && forall o | o in p :: o in m
    ensures Total(Only(m, Elements(p))) == Value(m, p)
  {
    if p == [] {
      assert Only(m, Elements(p)) == map[];
    } else {
      var front, last := p[..|p| - 1], p[|p| - 1];
      OnlyTotal(m, front);
      assert last !in front;
      assert Elements(p) - {last} == Elements(front);
      OnlyRemove(m, Elements(p), last);
    }
  }

  ghost predicate RowsOf(m: Utxos, s: seq<Row>)
  {
    forall i | 0 <= i < |s| :: s[i].point in m && m[s[i].point] == s[i].coin
  }

  /** The best `n` outputs of a descending list carry at least as much as any other `n` of them. */
  lemma {:induction false} LargestCarryMost(m: Utxos, s: seq<Row>, t: set<Outpoint>)
    requires Descending(s) && RowsOf(m, s) && |t| <= |s|
    requires t <= Elements(Points(s))
    ensures Total(Only(m, t)) <= Value(m, Points(s)[..|t|])
    decreases |t|
  {
    if t == {} {
      assert Only(m, t) == map[];
    } else {
      var y, i := OutsideTop(Points(s), t);
      LargestCarryMost(m, s, t - {y});
      LargestStep(m, s, t, y, i);
    }
  }

  lemma LargestStep(m: Utxos, s: seq<Row>, t: set<Outpoint>, y: Outpoint, i: nat)
    requires Descending(s) && RowsOf(m, s) && 0 < |t| <= |s| && y in t
    requires |t| - 1 <= i < |s| && Points(s)[i] == y
    requires Total(Only(m, t - {y})) <= Value(m, Points(s)[..|t| - 1])
    ensures Total(Only(m, t)) <= Value(m, Points(s)[..|t|])
  {
    hide Total, Only;
    var points, n := Points(s), |t|;
    OnlyRemove(m, t, y);
    assert points[..n][..n - 1] == points[..n - 1] && points[..n][n - 1] == points[n - 1];
    assert s[n - 1].coin.amount >= s[i].coin.amount;
  }

  /** Some element of the set stands at position `|t| - 1` or later. */
  lemma OutsideTop(points: seq<Outpoint>, t: set<Outpoint>) returns (y: Outpoint, i: nat)
    requires t != {} && |t| <= |points| && t <= Elements(points)
    ensures y in t && |t| - 1 <= i < |points| && points[i] == y
  {
    var front := points[..|t| - 1];
    FewElements(front);
    if t <= Elements(front) { SubsetSize(t, Elements(front)); }
    assert forall k | 0 <= k < |front| :: front[k] == points[k];
    y :| y in t && y !in Elements(front);
    i :| 0 <= i < |points| && points[i] == y;
  }

  datatype Selection = Selection(rows: seq<Row>, total: int)

  /** No nonempty front of up to `n` candidates reaches the target. */
  ghost predicate Short(m: Utxos, candidates: seq<Row>, n: nat, target: int)
    requires n <= |candidates|
  {
    forall k | 0 < k <= n :: Value(m, Points(candidates[..k])) < target
  }

  /** The shortest nonempty front of the candidates that reaches the target. */
  ghost predicate Reaches(m: Utxos, candidates: seq<Row>, sel: Selection, target: int)
  {
    && 0 < |sel.rows| <= |candidates| && sel.rows == candidates[..|sel.rows|]
    && sel.total == Value(m, Points(sel.rows)) >= target
    && Short(m, candidates, |sel.rows| - 1, target)
  }

  /** Distinct spendable outputs that carry the target. */
  ghost predicate EnoughInputs(open: Utxos, t: set<Outpoint>, target: int)
  {
    t <= open.Keys && Total(Only(open, t)) >= target
  }

  /** The selection is spendable, distinct and worth what it says. */
  ghost predicate GoodSelection(m: Utxos, addresses: seq<string>, spendable: Outpoint -> bool, sel: Selection,
                                target: int)
  {
    && sel.rows != [] && Distinct(Points(sel.rows))
    && (forall o | o in Points(sel.rows) :: Listed(m, addresses, o) && spendable(o))
    && sel.total == Value(m, Points(sel.rows)) >= target
  }

  /** No sufficient set of spendable outputs has fewer inputs. */
  ghost predicate Fewest(m: Utxos, addresses: seq<string>, spendable: Outpoint -> bool, sel: Selection, target: int)
  {
    forall t: set<Outpoint> | EnoughInputs(SpendableOf(m, addresses, spendable), t, target) :: |sel.rows| <= |t|
  }

  /** Selection takes outputs from the end of the listing until the target is reached. It succeeds exactly when the
      spendable outputs suffice, and for a nonempty address list no sufficient choice has fewer inputs. */
  method SelectInputs(m: Utxos, addresses: seq<string>, spendable: Outpoint -> bool, target: int)
    returns (r: Result<Selection>)
    requires Positive(m)
    ensures r.Ok? <==> SpendableOf(m, addresses, spendable) != map[]
                       && Total(SpendableOf(m, addresses, spendable)) >= target
    ensures r.Ok? ==> GoodSelection(m, addresses, spendable, r.value, target)
    ensures r.Ok? && addresses != [] && target > 0 ==> Fewest(m, addresses, spendable, r.value, target)
  {
    hide IsListing, SpendableOf, GoodSelection, Fewest, Positive, Points, Value, Short, Reaches, Chosen;
    var s := ListUtxos(m, addresses);
    ghost var candidates := Chosen(s, spendable);
    var rows: seq<Row> := [];
    var total := 0;
    NothingChosen(m, candidates, target);
    var i := |s|;
    assert s[..i] == s;
    while i > 0
      invariant 0 <= i <= |s| && rows + Chosen(s[..i], spendable) == candidates
      invariant total == Value(m, Points(rows)) && Short(m, candidates, |rows|, target)
      decreases i
    {
      i := i - 1;
      NextCandidate(s, spendable, rows, i);
      if spendable(s[i].point) {
        ListedRow(m, addresses, s, i);
        ValueSnoc(m, rows, s[i]);
        total := total + s[i].coin.amount;
        rows := rows + [s[i]];
        FrontGrows(m, candidates, Selection(rows, total), target);
        if total >= target {
          ReachedIsBest(m, addresses, spendable, s, Selection(rows, total), target);
          return Ok(Selection(rows, total));
        }
      }
    }
    assert rows == candidates by { NoCandidate(s, spendable); }
    AllCandidates(m, addresses, spendable, s);
    AllShort(m, candidates, target);
    return Rejected("Insufficient funds.");
  }

  lemma NextCandidate(s: seq<Row>, spendable: Outpoint -> bool, rows: seq<Row>, i: nat)
    requires i < |s|
    ensures var c := rows + Chosen(s[..i + 1], spendable);
            if spendable(s[i].point)
            then c == rows + [s[i]] + Chosen(s[..i], spendable) && |rows| < |c| && c[..|rows| + 1] == rows + [s[i]]
            else c == rows + Chosen(s[..i], spendable)
  {
    assert s[..i + 1][..i] == s[..i];
  }

  lemma NoCandidate(s: seq<Row>, spendable: Outpoint -> bool)
    ensures Chosen(s[..0], spendable) == []
  {
  }

  lemma ListedRow(m: Utxos, addresses: seq<string>, s: seq<Row>, i: nat)
    requires IsListing(m, addresses, s) && i < |s|
    ensures s[i].point in m && m[s[i].point] == s[i].coin
  {
  }

  lemma NothingChosen(m: Utxos, candidates: seq<Row>, target: int)
    ensures Value(m, Points([])) == 0 && Short(m, candidates, 0, target)
  {
  }

  lemma AllShort(m: Utxos, candidates: seq<Row>, target: int)
    requires Short(m, candidates, |candidates|, target)
    ensures candidates != [] ==> Value(m, Points(candidates)) < target
  {
    assert candidates[..|candidates|] == candidates;
  }

  lemma ValueSnoc(m: Utxos, s: seq<Row>, r: Row)
    ensures Value(m, Points(s + [r])) == Value(m, Points(s)) + if r.point in m then m[r.point].amount else 0
  {
    PointsSnoc(s, r);
    assert Points(s + [r])[..|s|] == Points(s);
  }

  /** The newest front either reaches the target or is short too. */
  lemma FrontGrows(m: Utxos, candidates: seq<Row>, sel: Selection, target: int)
    requires 0 < |sel.rows| <= |candidates| && sel.rows == candidates[..|sel.rows|]
    requires Short(m, candidates, |sel.rows| - 1, target) && sel.total == Value(m, Points(sel.rows))
    ensures if sel.total >= target then Reaches(m, candidates, sel, target)
            else Short(m, candidates, |sel.rows|, target)
  {
  }

  lemma PointsSnoc(s: seq<Row>, r: Row)
    ensures Points(s + [r]) == Points(s) + [r.point]
  {
    assert (s + [r])[..|s|] == s;
  }

  lemma PointsPrefix(s: seq<Row>, k: nat)
    requires k <= |s|
    ensures Points(s[..k]) == Points(s)[..k]
  {
  }

  /** The candidates are distinct, and largest first for an address list. */
  lemma CandidatesOrder(m: Utxos, addresses: seq<string>, spendable: Outpoint -> bool, s: seq<Row>)
    requires IsListing(m, addresses, s)
    ensures var c := Chosen(s, spendable);
            Distinct(Points(c)) && RowsOf(m, c) && (addresses != [] ==> Descending(c))
    ensures forall o | o in Points(Chosen(s, spendable)) :: Listed(m, addresses, o) && spendable(o)
  {
    hide Before, Distinct, Descending;
    var c := Chosen(s, spendable);
    ChosenContent(s, spendable);
    ChosenOrder(m, addresses != [], s, spendable);
    forall i | 0 <= i < |c|
      ensures Listed(m, addresses, c[i].point) && spendable(c[i].point) && m[c[i].point] == c[i].coin
    {
      assert c[i] in s;
    }
  }

  /** The candidates are the spendable listed outputs. */
  lemma CandidatesCover(m: Utxos, addresses: seq<string>, spendable: Outpoint -> bool, s: seq<Row>)
    requires IsListing(m, addresses, s)
    ensures SpendableOf(m, addresses, spendable) == Only(m, Elements(Points(Chosen(s, spendable))))
  {
    hide Before;
    var c := Chosen(s, spendable);
    CandidatesOrder(m, addresses, spendable, s);
    ChosenContent(s, spendable);
    forall o | o in m ensures o in Points(c) <==> Listed(m, addresses, o) && spendable(o) {
      if Listed(m, addresses, o) && spendable(o) {
        assert Row(o, m[o]) in c;
        var i :| 0 <= i < |c| && c[i] == Row(o, m[o]);
        assert Points(c)[i] == o;
      }
    }
  }

  lemma CandidatesFacts(m: Utxos, addresses: seq<string>, spendable: Outpoint -> bool, s: seq<Row>)
    requires IsListing(m, addresses, s)
    ensures var c := Chosen(s, spendable);
            && Distinct(Points(c)) && RowsOf(m, c) && (addresses != [] ==> Descending(c))
            && SpendableOf(m, addresses, spendable) == Only(m, Elements(Points(c)))
  {
    hide IsListing, SpendableOf, Distinct, RowsOf, Descending;
    CandidatesOrder(m, addresses, spendable, s);
    CandidatesCover(m, addresses, spendable, s);
  }

  lemma AllCandidates(m: Utxos, addresses: seq<string>, spendable: Outpoint -> bool, s: seq<Row>)
    requires IsListing(m, addresses, s)
    ensures var c := Chosen(s, spendable);
            && Total(SpendableOf(m, addresses, spendable)) == Value(m, Points(c))
            && (c == [] <==> SpendableOf(m, addresses, spendable) == map[])
  {
    hide SpendableOf, IsListing, Listed;
    CandidatesFacts(m, addresses, spendable, s);
    var c := Chosen(s, spendable);
    OnlyTotal(m, Points(c));
    if c != [] { assert c[0].point == Points(c)[0] && c[0].point in Only(m, Elements(Points(c))); }
  }

  lemma {:induction false} PrefixValue(m: Utxos, p: seq<Outpoint>, k: nat)
    requires Positive(m) && k <= |p|
    ensures Value(m, p[..k]) <= Value(m, p)
  {
    if k < |p| {
      PrefixValue(m, p[..|p| - 1], k);
      assert p[..|p| - 1][..k] == p[..k];
    } else {
      assert p[..k] == p;
    }
  }

  /** The spendable outputs suffice when a front of the candidates does. */
  lemma ReachedSuffices(m: Utxos, addresses: seq<string>, spendable: Outpoint -> bool, s: seq<Row>, sel: Selection,
                        target: int)
    requires Positive(m) && IsListing(m, addresses, s) && Reaches(m, Chosen(s, spendable), sel, target)
    ensures SpendableOf(m, addresses, spendable) != map[] && Total(SpendableOf(m, addresses, spendable)) >= target
  {
    hide IsListing, SpendableOf, Positive, Short;
    var c, n := Chosen(s, spendable), |sel.rows|;
    PointsPrefix(c, n);
    PrefixValue(m, Points(c), n);
    AllCandidates(m, addresses, spendable, s);
  }

  lemma ReachedIsGood(m: Utxos, addresses: seq<string>, spendable: Outpoint -> bool, s: seq<Row>, sel: Selection,
                      target: int)
    requires IsListing(m, addresses, s) && Reaches(m, Chosen(s, spendable), sel, target)
    ensures GoodSelection(m, addresses, spendable, sel, target)
  {
    hide IsListing, Listed, Short, Value;
    CandidatesOrder(m, addresses, spendable, s);
    PointsPrefix(Chosen(s, spendable), |sel.rows|);
  }

  /** What greedy selection returns is spendable and, when the largest come first, as short as can be. */
  lemma ReachedIsBest(m: Utxos, addresses: seq<string>, spendable: Outpoint -> bool, s: seq<Row>, sel: Selection,
                      target: int)
    requires Positive(m) && IsListing(m, addresses, s) && Reaches(m, Chosen(s, spendable), sel, target)
    ensures SpendableOf(m, addresses, spendable) != map[] && Total(SpendableOf(m, addresses, spendable)) >= target
    ensures GoodSelection(m, addresses, spendable, sel, target)
    ensures addresses != [] && target > 0 ==> Fewest(m, addresses, spendable, sel, target)
  {
    hide IsListing, SpendableOf, Positive, Reaches, EnoughInputs, GoodSelection;
    ReachedSuffices(m, addresses, spendable, s, sel, target);
    ReachedIsGood(m, addresses, spendable, s, sel, target);
    if addresses != [] && target > 0 {
      forall t: set<Outpoint> | EnoughInputs(SpendableOf(m, addresses, spendable), t, target)
        ensures |sel.rows| <= |t|
      {
        if |t| < |sel.rows| { TooFew(m, addresses, spendable, s, sel, target, t); }
      }
    }
  }

  lemma TooFew(m: Utxos, addresses: seq<string>, spendable: Outpoint -> bool, s: seq<Row>, sel: Selection, target: int,
               t: set<Outpoint>)
    requires IsListing(m, addresses, s) && Reaches(m, Chosen(s, spendable), sel, target)
    requires addresses != [] && target > 0 && |t| < |sel.rows|
    ensures !EnoughInputs(SpendableOf(m, addresses, spendable), t, target)
  {
    hide IsListing, Listed, SpendableOf, Total, Value;
    var c, open := Chosen(s, spendable), SpendableOf(m, addresses, spendable);
    CandidatesFacts(m, addresses, spendable, s);
    if t <= open.Keys {
      assert t <= Elements(Points(c));
      LargestCarryMost(m, c, t);
      PointsPrefix(c, |t|);
      assert Only(open, t) == Only(m, t);
      NothingSpent(m, Points(c));
    }
  }

  lemma NothingSpent(m: Utxos, p: seq<Outpoint>)
    ensures Value(m, p[..0]) == 0
  {
  }

  // ---------------------------------------------------------------- payments

  /** The spendability report and the chain's spending rule are the same rule at the next height. */
  predicate Spendable(cfg: Config, env: Env, origins: Origins, o: Outpoint, height: int)
  {
    if o !in origins then true
    else
      var origin := origins[o];
      if origin.coinbase && height < origin.height + cfg.coinbaseMaturity then false
      else if origin.claim.Some? then
        !env.frozen(origin.claim.value.classicalAddress)
        && height >= origin.height + (if cfg.escrowBlocks > 0 then cfg.escrowBlocks else 0)
      else true
  }

  lemma SpendableIsMatured(cfg: Config, env: Env, origins: Origins, o: Outpoint, height: int)
    ensures Spendable(cfg, env, origins, o, height) <==> Matured(cfg, env, origins, o, height)
  {
  }

  /** A payment from a good selection balances and passes the chain's transaction rules once its inputs are signed. */
  lemma PaymentValid(cfg: Config, env: Env, m: Utxos, origins: Origins, height: int, addresses: seq<string>,
                     sel: Selection, tx: Transaction)
    requires GoodSelection(m, addresses, (o: Outpoint) => Spendable(cfg, env, origins, o, height), sel,
                           Amount(tx.outputs) + tx.fee)
    requires tx.inputs == Points(sel.rows) && tx.kind == TransferKind && tx.fee >= 0 && tx.chainId == cfg.chainId
    requires tx.outputs != [] && (forall c | c in tx.outputs :: c.amount > 0)
    requires tx.txId == cfg.transactionHash(tx.(txId := 0))
    ensures 0 <= tx.timestamp && env.signaturesVerify(tx, m) ==>
              TransactionValid(cfg, env, tx, m, origins, {}, height, false, tx.timestamp)
  {
    hide Matured, Spendable;
    forall o | o in tx.inputs ensures o in m && Matured(cfg, env, origins, o, height) {
      SpendableIsMatured(cfg, env, origins, o, height);
    }
    assert tx.inputs[0] == sel.rows[0].point;
  }

  /** Builds a payment: select inputs for amount and fee, pay the recipient, return the change. */
  method CreateTransaction(cfg: Config, env: Env, m: Utxos, origins: Origins, height: int, addresses: seq<string>,
                           recipient: string, amount: int, fee: int, changeAddress: string, timestamp: int,
                           signatures: string)
    returns (r: Result<Transaction>)
    requires Positive(m)
    ensures r.Ok? <==> amount > 0 && fee >= 0
                       && amount + fee
                          <= Total(SpendableOf(m, addresses, (o: Outpoint) => Spendable(cfg, env, origins, o, height)))
    ensures r.Ok? ==> Value(m, r.value.inputs) == Amount(r.value.outputs) + r.value.fee
    ensures r.Ok? ==> r.value.outputs != [] && r.value.outputs[0] == Coin(recipient, amount) && r.value.fee == fee
    ensures r.Ok? ==> |r.value.outputs| == 1
                      || (|r.value.outputs| == 2 && r.value.outputs[1].recipient == changeAddress)
    ensures r.Ok? ==> r.value.inputs != [] && Distinct(r.value.inputs)
                      && forall o | o in r.value.inputs ::
                           o in m && (addresses == [] || m[o].recipient in addresses)
    ensures r.Ok? && 0 <= timestamp && env.signaturesVerify(r.value, m) ==>
              TransactionValid(cfg, env, r.value, m, origins, {}, height, false, timestamp)
  {
    hide SpendableOf, Spendable, TransactionValid, Amount, Value, Points, Positive;
    if amount <= 0 { return Rejected("Amount must be positive."); }
    if fee < 0 { return Rejected("Fee cannot be negative."); }
    assert Total(map[]) == 0;
    var sel := SelectInputs(m, addresses, (o: Outpoint) => Spendable(cfg, env, origins, o, height), amount + fee);
    if sel.Rejected? { return Rejected(sel.reason); }
    var outputs := [Coin(recipient, amount)];
    var change := sel.value.total - amount - fee;
    if change > 0 { outputs := outputs + [Coin(changeAddress, change)]; }
    PaymentAmount(recipient, amount, changeAddress, change);
    var draft := Transaction(TransferKind, Points(sel.value.rows), outputs, fee, timestamp, cfg.chainId,
                             Claim("", "", ""), signatures, 0);
    var tx := draft.(txId := cfg.transactionHash(draft));
    assert tx.(txId := 0) == draft;
    assert change >= 0 && sel.value.total == Amount(outputs) + fee;
    PaymentValid(cfg, env, m, origins, height, addresses, sel.value, tx);
    assert |Points(sel.value.rows)| == |sel.value.rows|;
    return Ok(tx);
  }

  lemma PaymentAmount(recipient: string, amount: int, changeAddress: string, change: int)
    ensures Amount([Coin(recipient, amount)]) == amount
    ensures Amount([Coin(recipient, amount)] + [Coin(changeAddress, change)]) == amount + change
  {
    var first := [Coin(recipient, amount)];
    assert first[..0] == [] && (first + [Coin(changeAddress, change)])[..1] == first;
  }
}
