/** Unspent outputs shared by both protocol versions, and the arithmetic of their totals.
    A hash is the integer its hexadecimal text denotes, so text order is integer order. */
module Coins {
  import opened Collections

  type Hash = int

  datatype Outpoint = Outpoint(txId: Hash, index: int)

  datatype Coin = Coin(recipient: string, amount: int)

  type Utxos = map<Outpoint, Coin>

  /** The sum of all amounts. */
  ghost function Total(m: Utxos): int
  {
    if m == map[] then 0
    else
      var k :| k in m;
      m[k].amount + Total(m - {k})
  }

  /** The sum of the amounts of a list of outputs. */
  function Amount(outputs: seq<Coin>): int
  {
    if outputs == [] then 0
    else Amount(outputs[..|outputs| - 1]) + outputs[|outputs| - 1].amount
  }

  /** The sum of the amounts behind a list of outpoints; one that is not live counts nothing. */
  function Value(m: Utxos, spent: seq<Outpoint>): int
  {
    if spent == [] then 0
    else
      var o := spent[|spent| - 1];
      Value(m, spent[..|spent| - 1]) + if o in m then m[o].amount else 0
  }

  predicate Positive(m: Utxos)
  {
    forall o | o in m :: m[o].amount > 0
  }

  function Without(m: Utxos, spent: seq<Outpoint>): Utxos
  {
    m - Elements(spent)
  }

  /** The outputs of one transaction written into a view, later writes winning. */
  function WithOutputs(m: Utxos, txId: Hash, outputs: seq<Coin>): Utxos
  {
    if outputs == [] then m
    else
      WithOutputs(m, txId, outputs[..|outputs| - 1])[Outpoint(txId, |outputs| - 1) := outputs[|outputs| - 1]]
  }

  /** What one transaction's outputs would overwrite: the live value already under those outpoints. */
  ghost function Overwritten(m: Utxos, txId: Hash, outputs: seq<Coin>): int
  {
    if outputs == [] then 0
    else
      var o := Outpoint(txId, |outputs| - 1);
      Overwritten(m, txId, outputs[..|outputs| - 1]) + if o in m then m[o].amount else 0
  }

  lemma {:induction false} TotalRemove(m: Utxos, o: Outpoint)
    requires o in m
    ensures Total(m) == m[o].amount + Total(m - {o})
    decreases |m|
  {
    var k :| k in m && Total(m) == m[k].amount + Total(m - {k});
    if k != o {
      TotalRemove(m - {k}, o);
      TotalRemove(m - {o}, k);
      assert m - {k} - {o} == m - {o} - {k};
    }
  }

  lemma TotalUpdate(m: Utxos, o: Outpoint, c: Coin)
    ensures Total(m[o := c]) == Total(m) - (if o in m then m[o].amount else 0) + c.amount
  {
    TotalRemove(m[o := c], o);
    if o in m {
      TotalRemove(m, o);
      assert m[o := c] - {o} == m - {o};
    } else {
      assert m[o := c] - {o} == m;
    }
  }

  lemma {:induction false} TotalWithout(m: Utxos, spent: seq<Outpoint>)
    requires Distinct(spent)
    requires forall o | o in spent :: o in m
    ensures Total(Without(m, spent)) == Total(m) - Value(m, spent)
  {
    if spent == [] {
      assert Without(m, spent) == m;
    } else {
      var front, last := spent[..|spent| - 1], spent[|spent| - 1];
      TotalWithout(m, front);
      assert last !in front;
      TotalRemove(Without(m, front), last);
      assert Without(m, spent) == Without(m, front) - {last};
    }
  }

  lemma {:induction false} WithOutputsContent(m: Utxos, txId: Hash, outputs: seq<Coin>)
    ensures forall o :: o in WithOutputs(m, txId, outputs)
                        <==> o in m || (o.txId == txId && 0 <= o.index < |outputs|)
    ensures forall o | o in WithOutputs(m, txId, outputs) ::
              WithOutputs(m, txId, outputs)[o]
              == if o.txId == txId && 0 <= o.index < |outputs| then outputs[o.index] else m[o]
  {
    if outputs != [] {
      WithOutputsContent(m, txId, outputs[..|outputs| - 1]);
    }
  }

  lemma {:induction false} TotalWithOutputs(m: Utxos, txId: Hash, outputs: seq<Coin>)
    ensures Total(WithOutputs(m, txId, outputs)) == Total(m) + Amount(outputs) - Overwritten(m, txId, outputs)
  {
    if outputs != [] {
      var front := outputs[..|outputs| - 1];
      TotalWithOutputs(m, txId, front);
      WithOutputsContent(m, txId, front);
      TotalUpdate(WithOutputs(m, txId, front), Outpoint(txId, |outputs| - 1), outputs[|outputs| - 1]);
    }
  }

  lemma {:induction false} OverwrittenNothing(m: Utxos, txId: Hash, outputs: seq<Coin>)
    requires Positive(m)
    ensures Overwritten(m, txId, outputs) >= 0
    ensures Overwritten(m, txId, outputs) == 0 <==> forall i | 0 <= i < |outputs| :: Outpoint(txId, i) !in m
  {
    if outputs != [] {
      OverwrittenNothing(m, txId, outputs[..|outputs| - 1]);
    }
  }

  lemma {:induction false} TotalNonNegative(m: Utxos)
    requires Positive(m)
    ensures Total(m) >= 0
    decreases |m|
  {
    if m != map[] {
      var k :| k in m;
      TotalRemove(m, k);
      TotalNonNegative(m - {k});
    }
  }

  /** Distinct live outpoints never carry more than the whole view does. */
  lemma {:induction false} ValueWithinTotal(m: Utxos, spent: seq<Outpoint>)
    requires Positive(m) && Distinct(spent)
    requires forall o | o in spent :: o in m
    ensures Value(m, spent) <= Total(m)
  {
    TotalWithout(m, spent);
    TotalNonNegative(Without(m, spent));
  }

  /** The sum a program computes by visiting every live output once, in any order. */
  method SumAmounts(m: Utxos) returns (total: int)
    ensures total == Total(m)
  {
    total := 0;
    var rest := m;
    while rest != map[]
      invariant total + Total(rest) == Total(m)
      decreases |rest|
    {
      var o :| o in rest;
      TotalRemove(rest, o);
      total := total + rest[o].amount;
      rest := rest - {o};
    }
  }

  /** Reads every value of a table, in whatever order it gives them. */
  method ReadValues<T(==)>(rows: map<Hash, T>) returns (s: seq<T>)
    ensures forall v :: v in s <==> exists h | h in rows :: rows[h] == v
  {
    s := [];
    var rest := rows.Keys;
    while exists h :: h in rest
      invariant rest <= rows.Keys
      invariant forall h | h in rows && h !in rest :: rows[h] in s
      invariant forall v | v in s :: exists h | h in rows :: rows[h] == v
      decreases |rest|
    {
      var h :| h in rest;
      s := s + [rows[h]];
      rest := rest - {h};
    }
  }
}
