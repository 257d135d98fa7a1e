/** The Products table: the `Product` entity, the name normalisation both
    product repositories match by, and the specification of `BuyProduct`. */
module Products {
  import opened Tables
  import opened Text

  /** A row of Products. `Price` is a decimal, dates are clock ticks, and the
      nullable columns (`ImgUrl`, `ImgUrlLocal`, `UpdateDate`) are Options. The
      `Category` navigation property is not part of the row. */
  datatype Product = Product(
    productId: int,
    name: string,
    description: string,
    price: real,
    imgUrl: Option<string>,
    imgUrlLocal: Option<string>,
    sku: string,
    stock: int,
    creationDate: int,
    updateDate: Option<int>,
    categoryId: int)

  function ProductKey(p: Product): int { p.productId }

  /** The store's invariant: `ProductId` is the primary key, and every id
      lies between 1, where the identity column starts, and the next value it
      hands out. */
  ghost predicate TableValid(table: seq<Product>, nextId: int) {
    && UniqueKeys(table, ProductKey)
    && nextId >= 1
    && forall i :: 0 <= i < |table| ==> 1 <= table[i].productId < nextId
  }

  /** `p.Name.ToLower().Trim() == name.ToLower().Trim()`. */
  predicate NameMatches(p: Product, name: string) {
    Normalize(p.name) == Normalize(name)
  }

  /** The `SearchProduct` filter: normalised name or description contains the
      normalised query. */
  predicate SearchMatches(p: Product, query: string) {
    var q := Normalize(query);
    Contains(Normalize(p.name), q) || Contains(Normalize(p.description), q)
  }

  predicate HasId(table: seq<Product>, id: int) {
    exists i :: 0 <= i < |table| && table[i].productId == id
  }

  predicate HasName(table: seq<Product>, name: string) {
    exists i :: 0 <= i < |table| && NameMatches(table[i], name)
  }

  /** Position of the first product whose normalised name equals the
      normalised `name` (`FirstOrDefault` on the name). */
  function FirstByName(table: seq<Product>, name: string): (r: Option<nat>)
    ensures r.Some? ==> r.value < |table| && NameMatches(table[r.value], name)
    ensures r.None? <==> !HasName(table, name)
  {
    FirstWhere(table, (p: Product) => NameMatches(p, name))
  }

  /** No product before the one the name lookup finds matches the name. */
  lemma FirstByNameIsFirst(table: seq<Product>, name: string)
    ensures var r := FirstByName(table, name);
            r.Some? ==> forall j :: 0 <= j < r.value ==> !NameMatches(table[j], name)
  {
  }

  /** `Where(p => p.CategoryId == categoryId)`. */
  function InCategory(table: seq<Product>, categoryId: int): seq<Product> {
    Where(table, (p: Product) => p.categoryId == categoryId)
  }

  /** `Where(SearchMatches)`. */
  function Search(table: seq<Product>, query: string): seq<Product> {
    Where(table, (p: Product) => SearchMatches(p, query))
  }

  function IdLeq(a: Product, b: Product): bool { a.productId <= b.productId }

  function NameLeq(a: Product, b: Product): bool { StrLeq(a.name, b.name) }

  lemma IdLeqTotalPreorder()
    ensures TotalPreorder(IdLeq)
  {
  }

  lemma NameLeqTotalPreorder()
    ensures TotalPreorder(NameLeq)
  {
    KeyedStrLeqTotalPreorder(NameLeq, (p: Product) => p.name);
  }

  /** `OrderBy(p => p.ProductId)`. */
  function OrderById(table: seq<Product>): (r: seq<Product>)
    ensures Sorted(r, IdLeq) && multiset(r) == multiset(table) && |r| == |table|
  {
    IdLeqTotalPreorder();
    SortBy(table, IdLeq)
  }

  /** `OrderBy(p => p.Name)`. */
  function OrderByName(table: seq<Product>): (r: seq<Product>)
    ensures Sorted(r, NameLeq) && multiset(r) == multiset(table) && |r| == |table|
  {
    NameLeqTotalPreorder();
    SortBy(table, NameLeq)
  }

  /** What `BuyProduct(name, quantity)` returns and leaves in the table. It
      refuses a blank name or a quantity that is not positive, a name no
      product matches, and a first match without enough stock, changing
      nothing; otherwise only the first match changes (`BuyChangesOnlyFirstMatch`). */
  function BuyResult(table: seq<Product>, name: string, quantity: int): (r: (bool, seq<Product>))
    ensures |r.1| == |table|
    ensures !r.0 ==> r.1 == table
    ensures r.0 <==> && !IsBlank(name) && quantity > 0
                     && FirstByName(table, name).Some?
                     && table[FirstByName(table, name).value].stock >= quantity
  {
    if IsBlank(name) || quantity <= 0 then (false, table)
    else match FirstByName(table, name)
      case None => (false, table)
      case Some(i) =>
        if table[i].stock < quantity then (false, table)
        else (true, table[i := table[i].(stock := table[i].stock - quantity)])
  }

  /** A successful purchase changes only the first match, and only in its
      stock, which drops by exactly `quantity` and stays non-negative. */
  lemma BuyChangesOnlyFirstMatch(table: seq<Product>, name: string, quantity: int)
    ensures var (ok, after) := BuyResult(table, name, quantity);
            ok ==> var i := FirstByName(table, name).value;
                   && after[i] == table[i].(stock := table[i].stock - quantity)
                   && after[i].stock >= 0
                   && forall j :: 0 <= j < |table| && j != i ==> after[j] == table[j]
  {
  }

  /** Stock never goes negative: a purchase on a table without negative
      stock leaves none. */
  lemma BuyKeepsStockNonNegative(table: seq<Product>, name: string, quantity: int)
    requires forall j :: 0 <= j < |table| ==> table[j].stock >= 0
    ensures var after := BuyResult(table, name, quantity).1;
            forall j :: 0 <= j < |after| ==> after[j].stock >= 0
  {
    BuyChangesOnlyFirstMatch(table, name, quantity);
  }

  /** A purchase keeps every id, so it keeps the store's invariant. */
  lemma BuyKeepsTableValid(table: seq<Product>, nextId: int, name: string, quantity: int)
    requires TableValid(table, nextId)
    ensures TableValid(BuyResult(table, name, quantity).1, nextId)
  {
    var (ok, after) := BuyResult(table, name, quantity);
    if ok {
      var i := FirstByName(table, name).value;
      assert forall j :: 0 <= j < |table| ==> ProductKey(after[j]) == ProductKey(table[j]);
    }
  }

  /** Units in stock over the whole table. */
  function TotalStock(table: seq<Product>): int {
    if table == [] then 0 else table[0].stock + TotalStock(table[1..])
  }

  lemma {:induction false} TotalStockUpdate(table: seq<Product>, i: nat, p: Product)
    requires i < |table|
    ensures TotalStock(table[i := p]) == TotalStock(table) - table[i].stock + p.stock
  {
    if i > 0 {
      assert table[i := p][1..] == table[1..][i - 1 := p];
      TotalStockUpdate(table[1..], i - 1, p);
    }
  }

  /** A purchase takes exactly `quantity` units out of the catalogue, or
      none when it is refused. */
  lemma BuyConservesStock(table: seq<Product>, name: string, quantity: int)
    ensures var (ok, after) := BuyResult(table, name, quantity);
            TotalStock(after) == TotalStock(table) - (if ok then quantity else 0)
  {
    var (ok, after) := BuyResult(table, name, quantity);
    if ok {
      var i := FirstByName(table, name).value;
      assert after == table[i := after[i]];
      TotalStockUpdate(table, i, after[i]);
    }
  }

  /** `FirstOrDefault` only looks at what the predicate looks at. */
  lemma {:induction false} FirstWhereAgrees<T>(s: seq<T>, t: seq<T>, P: T -> bool)
    requires |s| == |t| && forall i :: 0 <= i < |s| ==> (P(s[i]) <==> P(t[i]))
    ensures FirstWhere(s, P) == FirstWhere(t, P)
  {
    if s != [] {
      FirstWhereAgrees(s[1..], t[1..], P);
    }
  }

  /** A purchase renames nothing, so the product a name finds before a
      purchase is the one it finds after it. */
  lemma BuyKeepsNameLookup(table: seq<Product>, name: string, quantity: int, other: string)
    ensures FirstByName(BuyResult(table, name, quantity).1, other) == FirstByName(table, other)
  {
    var after := BuyResult(table, name, quantity).1;
    assert forall i :: 0 <= i < |table| ==> after[i].name == table[i].name;
    FirstWhereAgrees(after, table, (p: Product) => NameMatches(p, other));
  }

  /** Buying a product's whole stock succeeds and leaves it at zero; buying
      any further quantity of it then fails and leaves it at zero. */
  lemma BuyWholeStockThenNothingLeft(table: seq<Product>, name: string, more: int)
    requires !IsBlank(name) && FirstByName(table, name).Some?
    requires table[FirstByName(table, name).value].stock > 0
    requires more > 0
    ensures var i := FirstByName(table, name).value;
            var (ok, after) := BuyResult(table, name, table[i].stock);
            && ok && after[i].stock == 0
            && BuyResult(after, name, more) == (false, after)
  {
    var i := FirstByName(table, name).value;
    BuyKeepsNameLookup(table, name, table[i].stock, name);
  }

  /** A search for a product's own name finds it: exact-name lookup and
      substring search agree on the products a name identifies. */
  lemma SearchFindsNamedProduct(table: seq<Product>, name: string, i: nat)
    requires i < |table| && NameMatches(table[i], name)
    ensures table[i] in Search(table, name)
  {
    var q := Normalize(name);
    ContainsAt(Normalize(table[i].name), q, 0);
    assert SearchMatches(table[i], name);
    assert table[i] in table;
  }

  /** A blank query matches every product, so `SearchProduct` returns the
      whole table in table order. */
  lemma SearchBlankIsWholeTable(table: seq<Product>, query: string)
    requires IsBlank(query)
    ensures Search(table, query) == table
  {
    BlankIffNormalizesEmpty(query);
    forall i | 0 <= i < |table| ensures SearchMatches(table[i], query) {
      ContainsAt(Normalize(table[i].name), [], 0);
    }
    WhereAll(table, (p: Product) => SearchMatches(p, query));
  }

  /** Under the primary key, the id order is strict, so the id-sorted table is
      strictly increasing. */
  lemma OrderByIdStrict(table: seq<Product>, i: nat, j: nat)
    requires UniqueKeys(table, ProductKey)
    requires i < j < |table|
    ensures OrderById(table)[i].productId < OrderById(table)[j].productId
  {
    var r := OrderById(table);
    PermutationKeepsUniqueKeys(table, r, ProductKey);
    assert ProductKey(r[i]) != ProductKey(r[j]);
  }
}
