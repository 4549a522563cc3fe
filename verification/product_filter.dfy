/**
 * The filter of the product listing: a case-insensitive substring match
 * on the name, skipped when the search text is empty, followed by the
 * in-stock filter when the check box is set.
 */
module ProductFilter {

  /** A row of the static catalogue. The price is a display string. */
  datatype Product = Product(category: string, price: string, stocked: bool, name: string)

  /** Lower-cases one character; only the ASCII letters A-Z are mapped. */
  function LowerChar(c: char): char {
    if 'A' <= c <= 'Z' then (c as int + 32) as char else c
  }

  /** Lower-cases every character of `s`. */
  function ToLower(s: string): string {
    seq(|s|, i requires 0 <= i < |s| => LowerChar(s[i]))
  }

  /** `p` is a prefix of `s`. */
  predicate StartsWith(s: string, p: string) {
    |p| <= |s| && s[..|p|] == p
  }

  /** `p` occurs in `s` starting at offset `i`. */
  predicate OccursAt(s: string, p: string, i: int) {
    0 <= i <= |s| - |p| && s[i..i + |p|] == p
  }

  /** `s.includes(p)`: `p` occurs in `s` as a contiguous piece, at some offset. */
  function Includes(s: string, p: string): (r: bool)
    ensures r <==> exists i :: OccursAt(s, p, i)
    decreases |s|
  {
    if StartsWith(s, p) then
      assert OccursAt(s, p, 0);
      true
    else if s == [] then
      false
    else
      var rest := Includes(s[1..], p);
      assert forall i {:trigger OccursAt(s, p, i)} :: OccursAt(s, p, i) <==> i > 0 && OccursAt(s[1..], p, i - 1);
      assert forall i {:trigger OccursAt(s[1..], p, i)} :: OccursAt(s[1..], p, i) ==> OccursAt(s, p, i + 1);
      rest
  }

  /** `r` is `s` with some elements left out and the rest kept in their order. */
  predicate IsSubsequence<T(==)>(r: seq<T>, s: seq<T>)
    decreases |s|
  {
    if r == [] then true
    else if s == [] then false
    else if r[0] == s[0] then IsSubsequence(r[1..], s[1..])
    else IsSubsequence(r, s[1..])
  }

  /** A subsequence of the tail of `s` is a subsequence of `s`. */
  lemma {:induction false} SubsequenceOfTail<T>(r: seq<T>, s: seq<T>)
    requires s != [] && IsSubsequence(r, s[1..])
    ensures IsSubsequence(r, s)
    decreases |s|, 0
  {
    if r != [] && r[0] == s[0] {
      DropHead(r, s[1..]);
    }
  }

  /** Leaving out the first element of a subsequence gives a subsequence. */
  lemma {:induction false} DropHead<T>(r: seq<T>, t: seq<T>)
    requires r != [] && IsSubsequence(r, t)
    ensures IsSubsequence(r[1..], t)
    decreases |t|, 1
  {
    if r[0] == t[0] {
      SubsequenceOfTail(r[1..], t);
    } else {
      DropHead(r, t[1..]);
      SubsequenceOfTail(r[1..], t);
    }
  }

  /** Leaving out elements twice is leaving out elements once. */
  lemma {:induction false} SubsequenceTransitive<T>(q: seq<T>, r: seq<T>, s: seq<T>)
    requires IsSubsequence(q, r) && IsSubsequence(r, s)
    ensures IsSubsequence(q, s)
    decreases |s|
  {
    if q != [] {
      assert r != [] && s != [];
      if r[0] == s[0] {
        if q[0] == r[0] {
          SubsequenceTransitive(q[1..], r[1..], s[1..]);
        } else {
          SubsequenceTransitive(q, r[1..], s[1..]);
          SubsequenceOfTail(q, s);
        }
      } else {
        SubsequenceTransitive(q, r, s[1..]);
        SubsequenceOfTail(q, s);
      }
    }
  }

  /**
   * `s.filter(keep)`: the elements of `s` that `keep` accepts, in their
   * order, each as often as it occurs in `s`.
   */
  function Filter<T(==,!new)>(s: seq<T>, keep: T -> bool): (r: seq<T>)
    ensures IsSubsequence(r, s)
    ensures forall x :: multiset(r)[x] == if keep(x) then multiset(s)[x] else 0
  {
    if s == [] then []
    else
      var rest := Filter(s[1..], keep);
      assert s == [s[0]] + s[1..];
      if keep(s[0]) then
        [s[0]] + rest
      else
        SubsequenceOfTail(rest, s);
        rest
  }

  /** The name filter: the lower-cased name contains the lower-cased search text. */
  predicate NameMatches(product: Product, filterText: string) {
    Includes(ToLower(product.name), ToLower(filterText))
  }

  /** The products the table shows for the given search text and check box. */
  predicate Selected(product: Product, filterText: string, inStockOnly: bool) {
    (filterText != "" ==> NameMatches(product, filterText)) && (inStockOnly ==> product.stocked)
  }

  /**
   * The list shown by the filtered table: the name filter when the text is
   * not empty, then the stock filter when the box is checked. The result
   * keeps the selected products, each as often as in the input, in their
   * input order, and nothing else.
   */
  function FilteredProducts(products: seq<Product>, filterText: string, inStockOnly: bool): (r: seq<Product>)
    ensures IsSubsequence(r, products)
    ensures forall p :: multiset(r)[p] == if Selected(p, filterText, inStockOnly) then multiset(products)[p] else 0
    ensures forall p :: p in r ==> Selected(p, filterText, inStockOnly)
    ensures forall p :: p in products && Selected(p, filterText, inStockOnly) ==> p in r
    ensures filterText == "" && !inStockOnly ==> r == products
  {
    var filteredProducts :=
      if filterText != "" then Filter(products, (product: Product) => NameMatches(product, filterText))
      else products;
    assert IsSubsequence(products, products) by { SubsequenceReflexive(products); }
    var inStockFilteredProducts :=
      if inStockOnly then Filter(filteredProducts, (product: Product) => product.stocked)
      else filteredProducts;
    assert IsSubsequence(filteredProducts, filteredProducts) by { SubsequenceReflexive(filteredProducts); }
    SubsequenceTransitive(inStockFilteredProducts, filteredProducts, products);
    inStockFilteredProducts
  }

  lemma {:induction false} SubsequenceReflexive<T>(s: seq<T>)
    ensures IsSubsequence(s, s)
  {
    if s != [] {
      SubsequenceReflexive(s[1..]);
    }
  }

  /** The catalogue the page shows. */
  const Catalogue: seq<Product> := [
    Product("Fruits", "$1", true, "Apple"),
    Product("Fruits", "$1", true, "Dragonfruit"),
    Product("Fruits", "$2", false, "Passionfruit"),
    Product("Vegetables", "$2", true, "Spinach"),
    Product("Vegetables", "$4", false, "Pumpkin"),
    Product("Vegetables", "$1", true, "Peas")
  ]

  /** `t` is `s` lower-cased when it agrees with it character by character. */
  lemma LowerCased(s: string, t: string)
    requires |s| == |t| && forall i :: 0 <= i < |s| ==> LowerChar(s[i]) == t[i]
    ensures ToLower(s) == t
  {
  }

  /** A three-character pattern that disagrees with every window of `s` is not included in it. */
  lemma NotIncluded(s: string, p: string)
    requires |p| == 3
    requires forall i :: 0 <= i <= |s| - 3 ==> s[i] != p[0] || s[i + 1] != p[1] || s[i + 2] != p[2]
    ensures !Includes(s, p)
  {
    forall i | 0 <= i <= |s| - 3
      ensures !OccursAt(s, p, i)
    {
      var window := s[i..i + 3];
      assert window[0] == s[i] && window[1] == s[i + 1] && window[2] == s[i + 2];
    }
  }

  lemma AppleLacksPea() ensures !NameMatches(Catalogue[0], "pea") {
    LowerCased("pea", "pea"); LowerCased("Apple", "apple"); NotIncluded("apple", "pea");
  }

  lemma DragonfruitLacksPea() ensures !NameMatches(Catalogue[1], "pea") {
    LowerCased("pea", "pea"); LowerCased("Dragonfruit", "dragonfruit"); NotIncluded("dragonfruit", "pea");
  }

  lemma PassionfruitLacksPea() ensures !NameMatches(Catalogue[2], "pea") {
    LowerCased("pea", "pea"); LowerCased("Passionfruit", "passionfruit"); NotIncluded("passionfruit", "pea");
  }

  lemma SpinachLacksPea() ensures !NameMatches(Catalogue[3], "pea") {
    LowerCased("pea", "pea"); LowerCased("Spinach", "spinach"); NotIncluded("spinach", "pea");
  }

  lemma PumpkinLacksPea() ensures !NameMatches(Catalogue[4], "pea") {
    LowerCased("pea", "pea"); LowerCased("Pumpkin", "pumpkin"); NotIncluded("pumpkin", "pea");
  }

  lemma PeasHasPea() ensures NameMatches(Catalogue[5], "pea") {
    LowerCased("pea", "pea"); LowerCased("Peas", "peas");
    assert OccursAt("peas", "pea", 0);
  }

  /** Searching for "pea" without the stock filter shows Peas alone. */
  lemma PeaFindsPeas()
    ensures FilteredProducts(Catalogue, "pea", false) == [Catalogue[5]]
  {
    AppleLacksPea();
    DragonfruitLacksPea();
    PassionfruitLacksPea();
    SpinachLacksPea();
    PumpkinLacksPea();
    PeasHasPea();
    var r := FilteredProducts(Catalogue, "pea", false);
    assert multiset(Catalogue) == multiset{Catalogue[0], Catalogue[1], Catalogue[2], Catalogue[3], Catalogue[4], Catalogue[5]};
    assert multiset(r) == multiset{Catalogue[5]};
    assert |r| == 1;
    assert r[0] in multiset(r);
  }

  /** The stock filter drops the two unstocked items, whatever the search text. */
  lemma InStockDropsUnstocked(filterText: string)
    ensures Catalogue[2] !in FilteredProducts(Catalogue, filterText, true)
    ensures Catalogue[4] !in FilteredProducts(Catalogue, filterText, true)
  {
  }
}
