/**
  The `product_size` table and the statements the product-size repository
  runs against it, each read as a pure function of the table. Statements
  that change rows return the new table (and, for the guarded decrement, the
  affected-row count); queries return rows or sizes and leave the table as it
  was. Nothing makes `(productId, size)` unique, so every statement is
  stated for any number of rows sharing a key.
 */
module ProductSizeRepository {

  /** One row of `product_size`: the stock of one size of one product. */
  datatype ProductSize = ProductSize(productId: string, size: int, quantity: int)

  /** The table, in storage order. */
  type Table = seq<ProductSize>

  datatype SizeFilter = AnySize | SizeIs(size: int)

  /**
    A WHERE clause of the repository: `product_id = ?1`, optionally
    `AND size = ?2`, optionally `AND quantity > 0`.
   */
  datatype Condition = Condition(productId: string, size: SizeFilter, inStockOnly: bool)

  predicate Holds(c: Condition, row: ProductSize) {
    && row.productId == c.productId
    && (c.size.SizeIs? ==> row.size == c.size.size)
    && (c.inStockOnly ==> row.quantity > 0)
  }

  /** `product_id = ?1` */
  function ProductRows(id: string): Condition { Condition(id, AnySize, false) }

  /** `product_id = ?1 AND quantity > 0` */
  function ProductStock(id: string): Condition { Condition(id, AnySize, true) }

  /** `product_id = ?1 AND size = ?2` */
  function KeyRows(id: string, size: int): Condition { Condition(id, SizeIs(size), false) }

  /** `product_id = ?1 AND size = ?2 AND quantity > 0` */
  function KeyStock(id: string, size: int): Condition { Condition(id, SizeIs(size), true) }

  /** Spring Data's reading of a query declared to return one entity. */
  datatype SingleResult =
    | NoRow                 // the method returns null
    | OneRow(row: ProductSize)
    | NonUniqueResult       // IncorrectResultSizeDataAccessException

  /** An UPDATE statement's new table and affected-row count. */
  datatype Update = Update(table: Table, affected: nat)

  predicate NonNegative(t: Table) {
    forall i :: 0 <= i < |t| ==> t[i].quantity >= 0
  }

  /** Row `k` is the only row satisfying `c`. */
  ghost predicate OnlyMatchAt(t: Table, c: Condition, k: int) {
    && 0 <= k < |t|
    && Holds(c, t[k])
    && forall j :: 0 <= j < |t| && j != k ==> !Holds(c, t[j])
  }

  /** Row `k` is the only row carrying the key `(id, size)`. */
  ghost predicate UniqueKeyAt(t: Table, id: string, size: int, k: int) {
    OnlyMatchAt(t, KeyRows(id, size), k)
  }

  // ---------------------------------------------------------------------
  // Row selection
  // ---------------------------------------------------------------------

  /** The rows satisfying `c`, in table order: a SELECT with that WHERE clause. */
  function Where(t: Table, c: Condition): (r: Table)
    ensures |r| <= |t|
    decreases |t|
  {
    if |t| == 0 then []
    else (if Holds(c, t[0]) then [t[0]] else []) + Where(t[1..], c)
  }

  /** Every selected row is a row of the table that satisfies the condition. */
  lemma {:induction false} WhereSound(t: Table, c: Condition, row: ProductSize)
    requires row in Where(t, c)
    ensures row in t && Holds(c, row)
    decreases |t|
  {
    if !(Holds(c, t[0]) && row == t[0]) {
      assert row in Where(t[1..], c);
      WhereSound(t[1..], c, row);
    }
  }

  /** Every row of the table that satisfies the condition is selected. */
  lemma {:induction false} WhereComplete(t: Table, c: Condition, i: int)
    requires 0 <= i < |t| && Holds(c, t[i])
    ensures t[i] in Where(t, c)
    decreases |t|
  {
    if i > 0 {
      WhereComplete(t[1..], c, i - 1);
    }
  }

  /** Nothing is selected exactly when no row satisfies the condition. */
  lemma {:induction false} WhereEmpty(t: Table, c: Condition)
    ensures Where(t, c) == [] <==> forall i :: 0 <= i < |t| ==> !Holds(c, t[i])
  {
    if Where(t, c) != [] {
      WhereSound(t, c, Where(t, c)[0]);
    }
    forall i | 0 <= i < |t| && Holds(c, t[i]) ensures Where(t, c) != [] {
      WhereComplete(t, c, i);
    }
  }

  /** Selection keeps the relative order of rows: it distributes over concatenation. */
  lemma {:induction false} WhereKeepsOrder(t1: Table, t2: Table, c: Condition)
    ensures Where(t1 + t2, c) == Where(t1, c) + Where(t2, c)
    decreases |t1|
  {
    if |t1| > 0 {
      var head := if Holds(c, t1[0]) then [t1[0]] else [];
      assert (t1 + t2)[0] == t1[0];
      assert (t1 + t2)[1..] == t1[1..] + t2;
      assert Where(t1 + t2, c) == head + Where(t1[1..] + t2, c);
      assert Where(t1, c) == head + Where(t1[1..], c);
      WhereKeepsOrder(t1[1..], t2, c);
      assert head + (Where(t1[1..], c) + Where(t2, c)) == (head + Where(t1[1..], c)) + Where(t2, c);
    } else {
      assert t1 + t2 == t2;
    }
  }

  /** A selected row occurs as often as in the table when it satisfies the condition, else never. */
  lemma {:induction false} WhereMultiplicity(t: Table, c: Condition, row: ProductSize)
    ensures multiset(Where(t, c))[row] == if Holds(c, row) then multiset(t)[row] else 0
    decreases |t|
  {
    if |t| > 0 {
      assert t == [t[0]] + t[1..];
      WhereMultiplicity(t[1..], c, row);
    }
  }

  /** The size column of `rows`, one entry per row. */
  function Sizes(rows: Table): seq<int> {
    seq(|rows|, j requires 0 <= j < |rows| => rows[j].size)
  }

  /**
    Among the sizes of a product's in-stock rows, a size occurs once for every
    in-stock row of that product with that size.
   */
  lemma {:induction false} StockedSizesMultiplicity(t: Table, id: string, s: int)
    ensures multiset(Sizes(Where(t, ProductStock(id))))[s] == |Where(t, KeyStock(id, s))|
    decreases |t|
  {
    if |t| > 0 {
      var head := if Holds(ProductStock(id), t[0]) then [t[0]] else [];
      var rest := Where(t[1..], ProductStock(id));
      assert Where(t, ProductStock(id)) == head + rest;
      assert Sizes(head + rest) == Sizes(head) + Sizes(rest);
      assert Holds(KeyStock(id, s), t[0]) <==> Holds(ProductStock(id), t[0]) && t[0].size == s;
      StockedSizesMultiplicity(t[1..], id, s);
    }
  }

  lemma {:induction false} WhereTwoMatches(t: Table, c: Condition, i: int, j: int)
    requires 0 <= i < j < |t| && Holds(c, t[i]) && Holds(c, t[j])
    ensures |Where(t, c)| >= 2
    decreases |t|
  {
    if i == 0 {
      WhereComplete(t[1..], c, j - 1);
    } else {
      WhereTwoMatches(t[1..], c, i - 1, j - 1);
    }
  }

  lemma {:induction false} WhereAtLeastTwo(t: Table, c: Condition)
    requires |Where(t, c)| >= 2
    ensures exists i, j :: 0 <= i < j < |t| && Holds(c, t[i]) && Holds(c, t[j])
    decreases |t|
  {
    var rest := t[1..];
    if Holds(c, t[0]) {
      var row := Where(rest, c)[0];
      WhereSound(rest, c, row);
      var j' :| 0 <= j' < |rest| && rest[j'] == row;
      assert Holds(c, t[0]) && Holds(c, t[j' + 1]);
    } else {
      WhereAtLeastTwo(rest, c);
      var i', j' :| 0 <= i' < j' < |rest| && Holds(c, rest[i']) && Holds(c, rest[j']);
      assert Holds(c, t[i' + 1]) && Holds(c, t[j' + 1]);
    }
  }

  lemma {:induction false} WhereOnlyMatch(t: Table, c: Condition, k: int)
    requires OnlyMatchAt(t, c, k)
    ensures Where(t, c) == [t[k]]
    decreases |t|
  {
    var rest := t[1..];
    if k == 0 {
      forall j | 0 <= j < |rest| ensures !Holds(c, rest[j]) {
        assert rest[j] == t[j + 1];
      }
      WhereEmpty(rest, c);
    } else {
      assert OnlyMatchAt(rest, c, k - 1) by {
        forall j | 0 <= j < |rest| && j != k - 1 ensures !Holds(c, rest[j]) {
          assert rest[j] == t[j + 1];
        }
      }
      WhereOnlyMatch(rest, c, k - 1);
    }
  }

  lemma {:induction false} WhereExactlyOne(t: Table, c: Condition)
    requires |Where(t, c)| == 1
    ensures exists k :: OnlyMatchAt(t, c, k)
    decreases |t|
  {
    var rest := t[1..];
    if Holds(c, t[0]) {
      WhereEmpty(rest, c);
      assert OnlyMatchAt(t, c, 0) by {
        forall j | 0 <= j < |t| && j != 0 ensures !Holds(c, t[j]) {
          assert t[j] == rest[j - 1];
        }
      }
    } else {
      WhereExactlyOne(rest, c);
      var k' :| OnlyMatchAt(rest, c, k');
      assert OnlyMatchAt(t, c, k' + 1) by {
        forall j | 0 <= j < |t| && j != k' + 1 ensures !Holds(c, t[j]) {
          if j > 0 { assert t[j] == rest[j - 1]; }
        }
      }
    }
  }

  /**
    A query declared to return a single entity: null when no row satisfies
    `c`, that row when exactly one does, an exception when several do.
   */
  function SingleWhere(t: Table, c: Condition): (r: SingleResult)
    ensures r.NoRow? <==> forall i :: 0 <= i < |t| ==> !Holds(c, t[i])
    ensures forall k :: OnlyMatchAt(t, c, k) ==> r == OneRow(t[k])
    ensures r.OneRow? ==> exists k :: OnlyMatchAt(t, c, k) && r.row == t[k]
    ensures r.NonUniqueResult? <==> (exists i, j :: 0 <= i < j < |t| && Holds(c, t[i]) && Holds(c, t[j]))
  {
    var rows := Where(t, c);
    WhereEmpty(t, c);
    if |rows| == 0 then
      NoRow
    else if |rows| == 1 then
      assert exists k :: OnlyMatchAt(t, c, k) by {
        WhereExactlyOne(t, c);
      }
      assert forall k :: OnlyMatchAt(t, c, k) ==> rows[0] == t[k] by {
        forall k | OnlyMatchAt(t, c, k) ensures rows[0] == t[k] {
          WhereOnlyMatch(t, c, k);
        }
      }
      OneRow(rows[0])
    else
      WhereAtLeastTwo(t, c);
      assert forall k :: !OnlyMatchAt(t, c, k) by {
        forall k | OnlyMatchAt(t, c, k) ensures false {
          WhereOnlyMatch(t, c, k);
        }
      }
      NonUniqueResult
  }

  // ---------------------------------------------------------------------
  // Queries
  // ---------------------------------------------------------------------

  /** `SELECT size FROM product_size WHERE product_id = ?1 AND quantity > 0`. */
  function FindAllSizeOfProduct(t: Table, id: string): (sizes: seq<int>)
    ensures forall s :: s in sizes <==>
      exists i :: 0 <= i < |t| && t[i].productId == id && t[i].quantity > 0 && t[i].size == s
    ensures forall s :: multiset(sizes)[s] == |Where(t, KeyStock(id, s))|
  {
    var c := ProductStock(id);
    var rows := Where(t, c);
    var sizes := Sizes(rows);
    forall s ensures multiset(sizes)[s] == |Where(t, KeyStock(id, s))| {
      StockedSizesMultiplicity(t, id, s);
    }
    assert forall s :: s in sizes <==>
      exists i :: 0 <= i < |t| && t[i].productId == id && t[i].quantity > 0 && t[i].size == s
    by {
      forall s ensures s in sizes <==>
        exists i :: 0 <= i < |t| && t[i].productId == id && t[i].quantity > 0 && t[i].size == s
      {
        if s in sizes {
          var j :| 0 <= j < |sizes| && sizes[j] == s;
          WhereSound(t, c, rows[j]);
          var i :| 0 <= i < |t| && t[i] == rows[j];
          assert t[i].productId == id && t[i].quantity > 0 && t[i].size == s;
        }
        if exists i :: 0 <= i < |t| && t[i].productId == id && t[i].quantity > 0 && t[i].size == s {
          var i :| 0 <= i < |t| && t[i].productId == id && t[i].quantity > 0 && t[i].size == s;
          WhereComplete(t, c, i);
          var j :| 0 <= j < |rows| && rows[j] == t[i];
          assert sizes[j] == s;
        }
      }
    }
    sizes
  }

  /** `checkProductSizeAvailable`: the row of the key, provided it is in stock. */
  function CheckProductSizeAvailable(t: Table, id: string, size: int): (r: SingleResult)
    ensures r.OneRow? ==> r.row in t && r.row.productId == id && r.row.size == size && r.row.quantity > 0
    ensures r.NoRow? <==>
      forall i :: 0 <= i < |t| ==> !(t[i].productId == id && t[i].size == size && t[i].quantity > 0)
    ensures r.NonUniqueResult? <==>
      (exists i, j :: 0 <= i < j < |t| && Holds(KeyStock(id, size), t[i]) && Holds(KeyStock(id, size), t[j]))
  {
    SingleWhere(t, KeyStock(id, size))
  }

  /**
    `checkProductSizeAvailableWithLock`: the selection of
    `checkProductSizeAvailable`, issued as a locking read.
   */
  function CheckProductSizeAvailableWithLock(t: Table, id: string, size: int): (r: SingleResult)
    ensures r.OneRow? ==> r.row in t && r.row.productId == id && r.row.size == size && r.row.quantity > 0
    ensures r == CheckProductSizeAvailable(t, id, size)
  {
    SingleWhere(t, KeyStock(id, size))
  }

  /** `findByProductIdAndSizeForUpdate`: the row of the key, whatever its quantity. */
  function FindByProductIdAndSizeForUpdate(t: Table, id: string, size: int): (r: SingleResult)
    ensures r.OneRow? ==> r.row in t && r.row.productId == id && r.row.size == size
    ensures r.NoRow? <==> forall i :: 0 <= i < |t| ==> !(t[i].productId == id && t[i].size == size)
    ensures forall k :: UniqueKeyAt(t, id, size, k) ==> r == OneRow(t[k])
    ensures r.NonUniqueResult? <==>
      (exists i, j :: 0 <= i < j < |t| && Holds(KeyRows(id, size), t[i]) && Holds(KeyRows(id, size), t[j]))
  {
    SingleWhere(t, KeyRows(id, size))
  }

  /** A sold-out size is invisible to the availability check but found by the lookup for update. */
  lemma {:induction false} SoldOutRowFoundOnlyForUpdate(t: Table, id: string, size: int, k: int)
    requires UniqueKeyAt(t, id, size, k) && t[k].quantity <= 0
    ensures CheckProductSizeAvailable(t, id, size) == NoRow
    ensures FindByProductIdAndSizeForUpdate(t, id, size) == OneRow(t[k])
  {
    forall i | 0 <= i < |t| ensures !Holds(KeyStock(id, size), t[i]) {
      if i != k {
        assert !Holds(KeyRows(id, size), t[i]);
      }
    }
  }

  /** `findByProductId`: every row of the product, sold out or not, in table order. */
  function FindByProductId(t: Table, id: string): (rows: Table)
    ensures forall row :: row in rows <==> row in t && row.productId == id
    ensures forall row :: multiset(rows)[row] == if row.productId == id then multiset(t)[row] else 0
  {
    var rows := Where(t, ProductRows(id));
    forall row ensures multiset(rows)[row] == if row.productId == id then multiset(t)[row] else 0 {
      WhereMultiplicity(t, ProductRows(id), row);
    }
    assert forall row :: row in rows <==> row in t && row.productId == id by {
      forall row | row in rows ensures row in t && row.productId == id {
        WhereSound(t, ProductRows(id), row);
      }
      forall row | row in t && row.productId == id ensures row in rows {
        var i :| 0 <= i < |t| && t[i] == row;
        WhereComplete(t, ProductRows(id), i);
      }
    }
    rows
  }

  // ---------------------------------------------------------------------
  // Statements that change the table
  // ---------------------------------------------------------------------

  /** `DELETE FROM product_size WHERE product_id = ?1`: the other rows survive, in order. */
  function DeleteByProductId(t: Table, id: string): (t': Table)
    ensures forall row :: row in t' <==> row in t && row.productId != id
    ensures |t'| + |Where(t, ProductRows(id))| == |t|
    ensures Where(t', ProductRows(id)) == []
    decreases |t|
  {
    if |t| == 0 then []
    else
      var rest := DeleteByProductId(t[1..], id);
      assert t == [t[0]] + t[1..];
      var t' := (if t[0].productId == id then [] else [t[0]]) + rest;
      assert forall i :: 0 <= i < |t'| ==> !Holds(ProductRows(id), t'[i]) by {
        forall i | 0 <= i < |t'| ensures t'[i].productId != id {
          assert i > 0 || t[0].productId != id ==> t'[i] in t';
        }
      }
      WhereEmpty(t', ProductRows(id));
      t'
  }

  /** Deleting one product leaves every other product's rows, in the same order. */
  lemma {:induction false} DeleteKeepsOtherProducts(t: Table, id: string, other: string)
    requires other != id
    ensures FindByProductId(DeleteByProductId(t, id), other) == FindByProductId(t, other)
    decreases |t|
  {
    if |t| > 0 {
      DeleteKeepsOtherProducts(t[1..], id, other);
      var head := if t[0].productId == id then [] else [t[0]];
      WhereKeepsOrder(head, DeleteByProductId(t[1..], id), ProductRows(other));
    }
  }

  /**
    `UPDATE product_size SET quantity = quantity - 1
     WHERE product_id = ?1 AND size = ?2 AND quantity > 0`:
    every in-stock row of the key loses one unit, every other row is left
    alone, and the count of rows so changed is returned.
   */
  function MinusOneProductBySize(t: Table, id: string, size: int): (u: Update)
    ensures |u.table| == |t|
    ensures forall i :: 0 <= i < |t| && Holds(KeyStock(id, size), t[i]) ==>
      u.table[i] == t[i].(quantity := t[i].quantity - 1)
    ensures forall i :: 0 <= i < |t| && !Holds(KeyStock(id, size), t[i]) ==> u.table[i] == t[i]
    ensures u.affected == |Where(t, KeyStock(id, size))|
    ensures NonNegative(t) ==> NonNegative(u.table)
    decreases |t|
  {
    if |t| == 0 then Update([], 0)
    else
      var rest := MinusOneProductBySize(t[1..], id, size);
      if Holds(KeyStock(id, size), t[0]) then
        Update([t[0].(quantity := t[0].quantity - 1)] + rest.table, rest.affected + 1)
      else
        Update([t[0]] + rest.table, rest.affected)
  }

  /**
    `UPDATE product_size SET quantity = quantity + 1
     WHERE product_id = ?1 AND size = ?2`:
    every row of the key gains one unit; an absent key changes nothing.
   */
  function PlusOneProductBySize(t: Table, id: string, size: int): (t': Table)
    ensures |t'| == |t|
    ensures forall i :: 0 <= i < |t| && Holds(KeyRows(id, size), t[i]) ==>
      t'[i] == t[i].(quantity := t[i].quantity + 1)
    ensures forall i :: 0 <= i < |t| && !Holds(KeyRows(id, size), t[i]) ==> t'[i] == t[i]
    ensures NonNegative(t) ==> NonNegative(t')
    decreases |t|
  {
    if |t| == 0 then []
    else
      var rest := PlusOneProductBySize(t[1..], id, size);
      if Holds(KeyRows(id, size), t[0]) then
        [t[0].(quantity := t[0].quantity + 1)] + rest
      else
        [t[0]] + rest
  }

  /** The guarded decrement changes nothing exactly when it reports zero affected rows. */
  lemma {:induction false} MinusOneFailsIffUnchanged(t: Table, id: string, size: int)
    ensures var u := MinusOneProductBySize(t, id, size);
      u.affected == 0 <==> u.table == t
  {
    var c := KeyStock(id, size);
    var u := MinusOneProductBySize(t, id, size);
    WhereEmpty(t, c);
    if u.affected > 0 {
      var i :| 0 <= i < |t| && Holds(c, t[i]);
      assert u.table[i].quantity == t[i].quantity - 1;
    }
  }

  /** On a key no row carries, the increment is a silent no-op. */
  lemma {:induction false} PlusOneOnAbsentKey(t: Table, id: string, size: int)
    requires forall i :: 0 <= i < |t| ==> !(t[i].productId == id && t[i].size == size)
    ensures PlusOneProductBySize(t, id, size) == t
  {
  }

  /**
    Decrementing and then incrementing a key gives back the table exactly
    when every row of that key was in stock; a sold-out duplicate row of the
    key would be incremented without having been decremented.
   */
  lemma {:induction false} MinusThenPlusRestores(t: Table, id: string, size: int)
    ensures PlusOneProductBySize(MinusOneProductBySize(t, id, size).table, id, size) == t
        <==> forall i :: 0 <= i < |t| && Holds(KeyRows(id, size), t[i]) ==> t[i].quantity > 0
  {
    var t1 := MinusOneProductBySize(t, id, size).table;
    var t2 := PlusOneProductBySize(t1, id, size);
    if forall i :: 0 <= i < |t| && Holds(KeyRows(id, size), t[i]) ==> t[i].quantity > 0 {
      forall i | 0 <= i < |t| ensures t2[i] == t[i] {
        if Holds(KeyRows(id, size), t[i]) {
          assert Holds(KeyStock(id, size), t[i]);
          assert Holds(KeyRows(id, size), t1[i]);
        } else {
          assert !Holds(KeyStock(id, size), t[i]);
        }
      }
    } else {
      var i :| 0 <= i < |t| && Holds(KeyRows(id, size), t[i]) && t[i].quantity <= 0;
      assert !Holds(KeyStock(id, size), t[i]);
      assert t2[i].quantity == t[i].quantity + 1;
    }
  }

  /**
    On a key held by a single row the decrement affects one row when that
    row is in stock and none otherwise, and a successful decrement is undone
    by the increment.
   */
  lemma {:induction false} UniqueKeyRoundTrip(t: Table, id: string, size: int, k: int)
    requires UniqueKeyAt(t, id, size, k)
    ensures var u := MinusOneProductBySize(t, id, size);
      && (u.affected == 1 <==> t[k].quantity > 0)
      && (u.affected == 0 <==> t[k].quantity <= 0)
      && (u.affected == 1 ==> PlusOneProductBySize(u.table, id, size) == t)
  {
    var c := KeyStock(id, size);
    forall j | 0 <= j < |t| && j != k ensures !Holds(c, t[j]) {
      assert !Holds(KeyRows(id, size), t[j]);
    }
    if t[k].quantity > 0 {
      WhereOnlyMatch(t, c, k);
    } else {
      WhereEmpty(t, c);
    }
    MinusThenPlusRestores(t, id, size);
  }
}
