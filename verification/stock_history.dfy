/**
  Sequences of the two stock statements issued against one `(productId, size)`
  key, one after another: what the guarded decrement and the increment add up
  to over a whole history.
 */
module StockHistory {
  import opened ProductSizeRepository

  /** One repository call on the key. */
  datatype Call = MinusOne | PlusOne

  /**
    The table after a history, with the sum of the counts the decrements
    returned and the number of increments issued.
   */
  datatype Tally = Tally(table: Table, decremented: nat, incremented: nat)

  /** Issues `calls` in order on the key `(id, size)`, starting from `t`. */
  function Replay(t: Table, id: string, size: int, calls: seq<Call>): (r: Tally)
    ensures |r.table| == |t|
    ensures NonNegative(t) ==> NonNegative(r.table)
    decreases |calls|
  {
    if |calls| == 0 then Tally(t, 0, 0)
    else
      var prev := Replay(t, id, size, calls[..|calls| - 1]);
      match calls[|calls| - 1]
      case MinusOne =>
        var u := MinusOneProductBySize(prev.table, id, size);
        Tally(u.table, prev.decremented + u.affected, prev.incremented)
      case PlusOne =>
        Tally(PlusOneProductBySize(prev.table, id, size), prev.decremented, prev.incremented + 1)
  }

  /**
    When one row holds the key, its final quantity is the initial quantity
    minus the counts the decrements returned plus the number of increments;
    every other row is untouched, and a row that started non-negative ends
    non-negative.
   */
  lemma {:induction false} ReplayBalance(t: Table, id: string, size: int, calls: seq<Call>, k: int)
    requires UniqueKeyAt(t, id, size, k)
    ensures var r := Replay(t, id, size, calls);
      && UniqueKeyAt(r.table, id, size, k)
      && r.table[k] == t[k].(quantity := t[k].quantity - r.decremented + r.incremented)
      && (forall j :: 0 <= j < |t| && j != k ==> r.table[j] == t[j])
      && (t[k].quantity >= 0 ==> r.table[k].quantity >= 0)
    decreases |calls|
  {
    if |calls| > 0 {
      var prefix := calls[..|calls| - 1];
      ReplayBalance(t, id, size, prefix, k);
      var prev := Replay(t, id, size, prefix);
      var r := Replay(t, id, size, calls);
      forall j | 0 <= j < |t| && j != k ensures !Holds(KeyStock(id, size), prev.table[j]) {
        assert !Holds(KeyRows(id, size), prev.table[j]);
      }
      match calls[|calls| - 1]
      case MinusOne =>
        UniqueKeyRoundTrip(prev.table, id, size, k);
      case PlusOne =>
    }
  }

  /** At no point of a history does the quantity of a uniquely keyed row become negative. */
  lemma {:induction false} NeverNegative(t: Table, id: string, size: int, calls: seq<Call>, k: int)
    requires UniqueKeyAt(t, id, size, k) && t[k].quantity >= 0
    ensures forall n :: 0 <= n <= |calls| ==> Replay(t, id, size, calls[..n]).table[k].quantity >= 0
  {
    forall n | 0 <= n <= |calls| ensures Replay(t, id, size, calls[..n]).table[k].quantity >= 0 {
      ReplayBalance(t, id, size, calls[..n], k);
    }
  }

  /**
    With `n` units on a single row, `m` decrements in a row succeed
    `min(n, m)` times: no more units are sold than were in stock.
   */
  lemma {:induction false} DecrementsSellAtMostStock(t: Table, id: string, size: int, k: int, m: nat)
    requires UniqueKeyAt(t, id, size, k) && t[k].quantity >= 0
    ensures var r := Replay(t, id, size, seq(m, i => MinusOne));
      && r.decremented == (if m <= t[k].quantity then m else t[k].quantity)
      && r.table[k].quantity == t[k].quantity - r.decremented
    decreases m
  {
    var calls := seq(m, i => MinusOne);
    if m > 0 {
      var prefix := seq(m - 1, i => MinusOne);
      assert calls[..m - 1] == prefix;
      DecrementsSellAtMostStock(t, id, size, k, m - 1);
      ReplayBalance(t, id, size, prefix, k);
      var prev := Replay(t, id, size, prefix);
      UniqueKeyRoundTrip(prev.table, id, size, k);
    }
  }
}
