/**
 * The product table: one row per product, with a category header row
 * in front of a product whenever its category differs from that of the
 * product before it.
 */
module ProductTable {
  import opened Wrappers
  import opened ProductFilter

  /** A table body row: a category header or a product row. */
  datatype Row = CategoryRow(category: string) | ProductRow(product: Product)

  /** Product `i` opens a category: it is the first, or its category differs from the previous one's. */
  predicate StartsCategory(products: seq<Product>, i: nat)
    requires i < |products|
  {
    i == 0 || products[i].category != products[i - 1].category
  }

  /** The rows item `i` adds: a header when it opens a category, then its product row. */
  function Block(products: seq<Product>, i: nat): seq<Row>
    requires i < |products|
  {
    (if StartsCategory(products, i) then [CategoryRow(products[i].category)] else []) + [ProductRow(products[i])]
  }

  /** The rows the table body is built from, item by item. */
  function TableRows(products: seq<Product>): seq<Row>
    decreases |products|
  {
    if products == [] then []
    else TableRows(products[..|products| - 1]) + Block(products, |products| - 1)
  }

  /** The products of the product rows, in row order. */
  function ProductsOf(rows: seq<Row>): seq<Product>
    decreases |rows|
  {
    if rows == [] then []
    else
      var last := rows[|rows| - 1];
      ProductsOf(rows[..|rows| - 1]) + (if last.ProductRow? then [last.product] else [])
  }

  /** The category of the last header among the first `j` rows, if there is one. */
  function HeaderAbove(rows: seq<Row>, j: nat): Option<string>
    requires j <= |rows|
  {
    if j == 0 then None
    else if rows[j - 1].CategoryRow? then Some(rows[j - 1].category)
    else HeaderAbove(rows, j - 1)
  }

  /** Every product row sits under the header of its own category. */
  ghost predicate UnderOwnHeader(rows: seq<Row>) {
    forall j :: 0 <= j < |rows| && rows[j].ProductRow? ==> HeaderAbove(rows, j) == Some(rows[j].product.category)
  }

  /**
   * Row `j`, if a header, is followed by a product of its category and,
   * unless it is the first row, preceded by a product of another category.
   */
  ghost predicate HeaderJustified(rows: seq<Row>, j: nat)
    requires j < |rows|
  {
    rows[j].CategoryRow? ==>
      j + 1 < |rows| && rows[j + 1].ProductRow? && rows[j + 1].product.category == rows[j].category &&
      (j > 0 ==> rows[j - 1].ProductRow? && rows[j - 1].product.category != rows[j].category)
  }

  /** No header appears without a change of category. */
  ghost predicate HeadersOnChange(rows: seq<Row>) {
    forall j :: 0 <= j < |rows| ==> HeaderJustified(rows, j)
  }

  lemma {:induction false} ProductsOfAppend(a: seq<Row>, b: seq<Row>)
    ensures ProductsOf(a + b) == ProductsOf(a) + ProductsOf(b)
    decreases |b|
  {
    if b != [] {
      var b' := b[..|b| - 1];
      assert (a + b)[..|a + b| - 1] == a + b';
      ProductsOfAppend(a, b');
    } else {
      assert a + b == a;
    }
  }

  lemma {:induction false} HeaderAbovePrefix(a: seq<Row>, b: seq<Row>, j: nat)
    requires j <= |a|
    ensures HeaderAbove(a + b, j) == HeaderAbove(a, j)
  {
    if j > 0 {
      assert (a + b)[j - 1] == a[j - 1];
      HeaderAbovePrefix(a, b, j - 1);
    }
  }

  /** The last row of a non-empty table is the last product's row. */
  lemma LastRow(products: seq<Product>)
    requires products != []
    ensures |TableRows(products)| > 0
    ensures TableRows(products)[|TableRows(products)| - 1] == ProductRow(products[|products| - 1])
  {
  }

  lemma BlockProducts(products: seq<Product>, i: nat)
    requires i < |products|
    ensures ProductsOf(Block(products, i)) == [products[i]]
  {
    var block := Block(products, i);
    if StartsCategory(products, i) {
      var header := [CategoryRow(products[i].category)];
      assert header[..0] == [];
      assert ProductsOf(header) == [];
      assert |block| == 2 && block[..1] == header && block[1] == ProductRow(products[i]);
    } else {
      assert block[..0] == [];
    }
  }

  /** The product rows of a table are those of the table without its last product, then that product. */
  lemma ProductsOfLastBlock(products: seq<Product>)
    requires products != []
    ensures ProductsOf(TableRows(products)) ==
      ProductsOf(TableRows(products[..|products| - 1])) + [products[|products| - 1]]
  {
    var n := |products| - 1;
    ProductsOfAppend(TableRows(products[..n]), Block(products, n));
    BlockProducts(products, n);
  }

  /** The product rows hold exactly the given products, in their order. */
  lemma {:induction false} ProductRowsInOrder(products: seq<Product>)
    ensures ProductsOf(TableRows(products)) == products
    decreases |products|
  {
    if products != [] {
      var n := |products| - 1;
      ProductsOfLastBlock(products);
      ProductRowsInOrder(products[..n]);
      assert products[..n] + [products[n]] == products;
    }
  }

  /** Every product row of the table sits under its own category's header. */
  lemma {:induction false} RowsUnderOwnHeader(products: seq<Product>)
    ensures UnderOwnHeader(TableRows(products))
    decreases |products|
  {
    if products != [] {
      var n := |products| - 1;
      var prefix := TableRows(products[..n]);
      var block := Block(products, n);
      var rows := TableRows(products);
      assert rows == prefix + block;
      RowsUnderOwnHeader(products[..n]);
      forall j | 0 <= j < |rows| && rows[j].ProductRow?
        ensures HeaderAbove(rows, j) == Some(rows[j].product.category)
      {
        if j < |prefix| {
          HeaderAbovePrefix(prefix, block, j);
          assert rows[j] == prefix[j];
        } else if !StartsCategory(products, n) {
          LastRow(products[..n]);
          assert rows[j - 1] == prefix[|prefix| - 1];
          HeaderAbovePrefix(prefix, block, |prefix| - 1);
        }
      }
    }
  }

  /** Every header of the table marks a change of category. */
  lemma {:induction false} HeadersMarkChanges(products: seq<Product>)
    ensures HeadersOnChange(TableRows(products))
    decreases |products|
  {
    if products != [] {
      var n := |products| - 1;
      var prefix := TableRows(products[..n]);
      var block := Block(products, n);
      var rows := TableRows(products);
      assert rows == prefix + block;
      HeadersMarkChanges(products[..n]);
      if n > 0 {
        LastRow(products[..n]);
      }
      forall j | 0 <= j < |rows|
        ensures HeaderJustified(rows, j)
      {
        if j < |prefix| {
          assert HeaderJustified(prefix, j);
        } else if j == |prefix| && n > 0 {
          assert rows[j - 1] == prefix[|prefix| - 1];
        }
      }
    }
  }

  /**
   * Walks the products, pushing a header whenever the category differs
   * from the last one seen (none at the start), then the product row.
   */
  method BuildRows(products: seq<Product>) returns (rows: seq<Row>)
    ensures rows == TableRows(products)
    ensures ProductsOf(rows) == products
    ensures UnderOwnHeader(rows) && HeadersOnChange(rows)
  {
    rows := [];
    var lastCategory: Option<string> := None;
    for i := 0 to |products|
      invariant rows == TableRows(products[..i])
      invariant lastCategory == if i == 0 then None else Some(products[i - 1].category)
    {
      var product := products[i];
      assert products[..i + 1][..i] == products[..i];
      if Some(product.category) != lastCategory {
        rows := rows + [CategoryRow(product.category)];
      }
      rows := rows + [ProductRow(product)];
      lastCategory := Some(product.category);
    }
    assert products[..|products|] == products;
    ProductRowsInOrder(products);
    RowsUnderOwnHeader(products);
    HeadersMarkChanges(products);
  }

  /** Number of header rows for category `c`. */
  function HeaderCount(rows: seq<Row>, c: string): nat
    decreases |rows|
  {
    if rows == [] then 0
    else HeaderCount(rows[..|rows| - 1], c) + (if rows[|rows| - 1] == CategoryRow(c) then 1 else 0)
  }

  lemma {:induction false} HeaderCountAppend(a: seq<Row>, b: seq<Row>, c: string)
    ensures HeaderCount(a + b, c) == HeaderCount(a, c) + HeaderCount(b, c)
    decreases |b|
  {
    if b != [] {
      assert (a + b)[..|a + b| - 1] == a + b[..|b| - 1];
      HeaderCountAppend(a, b[..|b| - 1], c);
    } else {
      assert a + b == a;
    }
  }

  lemma BlockHeaders(products: seq<Product>, i: nat, c: string)
    requires i < |products|
    ensures HeaderCount(Block(products, i), c) == if StartsCategory(products, i) && products[i].category == c then 1 else 0
  {
    var block := Block(products, i);
    if StartsCategory(products, i) {
      var header := [CategoryRow(products[i].category)];
      assert header[..0] == [];
      assert HeaderCount(header, c) == if products[i].category == c then 1 else 0;
      assert |block| == 2 && block[..1] == header && block[1] == ProductRow(products[i]);
    } else {
      assert block[..0] == [];
    }
  }

  /** Some product has category `c`. */
  ghost predicate HasCategory(products: seq<Product>, c: string) {
    exists i :: 0 <= i < |products| && products[i].category == c
  }

  /** Products of one category are contiguous in the list. */
  ghost predicate Grouped(products: seq<Product>) {
    forall i, k, j :: 0 <= i < k < j < |products| && products[i].category == products[j].category ==>
      products[k].category == products[i].category
  }

  lemma HasCategoryExtend(products: seq<Product>, c: string)
    requires products != []
    ensures HasCategory(products, c) <==>
      HasCategory(products[..|products| - 1], c) || products[|products| - 1].category == c
  {
    var n := |products| - 1;
    if HasCategory(products, c) && products[n].category != c {
      var i :| 0 <= i < |products| && products[i].category == c;
      assert products[..n][i].category == c;
    }
    if HasCategory(products[..n], c) {
      var i :| 0 <= i < n && products[..n][i].category == c;
      assert products[i].category == c;
    }
  }

  /** On a list grouped by category, each category present gets exactly one header. */
  lemma {:induction false} OneHeaderPerCategory(products: seq<Product>, c: string)
    requires Grouped(products)
    ensures HeaderCount(TableRows(products), c) == if HasCategory(products, c) then 1 else 0
    decreases |products|
  {
    if products != [] {
      var n := |products| - 1;
      var prefix := products[..n];
      var block := Block(products, n);
      assert Grouped(prefix);
      OneHeaderPerCategory(prefix, c);
      HeaderCountAppend(TableRows(prefix), block, c);
      HasCategoryExtend(products, c);
      var opens := StartsCategory(products, n);
      BlockHeaders(products, n, c);
      if products[n].category == c && n > 0 {
        if opens {
          NoEarlierCategory(products, c);
        } else {
          assert prefix[n - 1].category == c;
        }
      }
    }
  }

  /** In a grouped list, a category that starts at the last item did not occur before it. */
  lemma NoEarlierCategory(products: seq<Product>, c: string)
    requires Grouped(products) && |products| > 1
    requires products[|products| - 1].category == c && products[|products| - 2].category != c
    ensures !HasCategory(products[..|products| - 1], c)
  {
    var n := |products| - 1;
    if HasCategory(products[..n], c) {
      assert false;
    }
  }

  /** The catalogue lists each category in one run, so "Vegetables" gets one header. */
  lemma VegetablesHeaderOnce()
    ensures HeaderCount(TableRows(Catalogue), "Vegetables") == 1
  {
    assert Grouped(Catalogue);
    assert Catalogue[3].category == "Vegetables";
    OneHeaderPerCategory(Catalogue, "Vegetables");
  }
}
