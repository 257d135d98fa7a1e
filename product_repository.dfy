/** The catalogue's `ProductRepository`: the Products table held in memory,
    the LINQ queries over it, and the add/update/remove and stock-purchase
    operations that change it. */
module CatalogProductRepository {
  import opened Tables
  import opened Text
  import opened Products

  class ProductRepository {
    /** The rows of Products, in store order. */
    var products: seq<Product>
    /** The next value of the `ProductId` identity column. */
    var nextId: int

    ghost predicate Valid()
      reads this
    {
      TableValid(products, nextId)
    }

    constructor ()
      ensures products == [] && nextId == 1
      ensures Valid()
    {
      products := [];
      nextId := 1;
    }

    /** `GetProducts`: every product, ordered by name. */
    function GetProducts(): (r: seq<Product>)
      reads this
      ensures Sorted(r, NameLeq) && multiset(r) == multiset(products)
    {
      OrderByName(products)
    }

    /** `GetProductsInCategory`: exactly the products of one category, as
        often as the table holds them and in table order. */
    function GetProductsInCategory(categoryId: int): (r: seq<Product>)
      reads this
      ensures forall p :: p in r <==> p in products && p.categoryId == categoryId
      ensures forall p :: multiset(r)[p] == if p.categoryId == categoryId then multiset(products)[p] else 0
    {
      WhereMultiset(products, (p: Product) => p.categoryId == categoryId);
      InCategory(products, categoryId)
    }

    /** `SearchProduct`: exactly the products whose normalised name or
        description contains the normalised query, each as often as the
        table holds it. */
    function SearchProduct(name: string): (r: seq<Product>)
      reads this
      ensures forall p :: p in r <==> p in products && SearchMatches(p, name)
      ensures forall p :: multiset(r)[p] == if SearchMatches(p, name) then multiset(products)[p] else 0
      ensures |r| <= |products|
    {
      WhereMultiset(products, (p: Product) => SearchMatches(p, name));
      Search(products, name)
    }

    /** `GetProduct(id)`: the row with that id, or null. */
    function GetProduct(id: int): (r: Option<Product>)
      reads this
      ensures r.Some? ==> r.value in products && r.value.productId == id
      ensures r.None? <==> !HasId(products, id)
    {
      match IndexOfKey(products, ProductKey, id)
      case None => None
      case Some(i) => Some(products[i])
    }

    /** `GetProductByName(name)`: the first row whose normalised name equals
        the normalised argument, or null. */
    function GetProductByName(name: string): (r: Option<Product>)
      reads this
      ensures r.Some? ==> exists i :: 0 <= i < |products| && products[i] == r.value && !HasName(products[..i], name)
      ensures r.Some? ==> NameMatches(r.value, name)
      ensures r.None? <==> !HasName(products, name)
    {
      FirstByNameIsFirst(products, name);
      match FirstByName(products, name)
      case None => None
      case Some(i) => Some(products[i])
    }

    /** `ProductExists(int)`. */
    function ProductExists(productId: int): (r: bool)
      reads this
      ensures r <==> HasId(products, productId)
      ensures r <==> GetProduct(productId).Some?
    {
      Any(products, (c: Product) => c.productId == productId)
    }

    /** `ProductExists(string)`. */
    function ProductExistsByName(name: string): (r: bool)
      reads this
      ensures r <==> HasName(products, name)
      ensures r <==> GetProductByName(name).Some?
    {
      Any(products, (c: Product) => NameMatches(c, name))
    }

    /** `GetProductsInPages`: the window of at most `pageSize` rows of the
        id-ordered table that starts at row `(pageNumber - 1) * pageSize`;
        the caller keeps that offset within 32 bits. */
    function GetProductsInPages(pageNumber: int, pageSize: int): (r: seq<Product>)
      reads this
      requires pageNumber >= 1 && pageSize >= 1
      requires PageOffset(pageNumber, pageSize) <= 0x7fff_ffff
      ensures |r| <= pageSize
      ensures var off := PageOffset(pageNumber, pageSize); var n := |products|;
              r == OrderById(products)[Min(off, n)..Min(off + pageSize, n)]
    {
      var sorted := OrderById(products);
      PageSlice(sorted, pageNumber, pageSize);
      Page(sorted, pageNumber, pageSize)
    }

    /** `GetTotalProducts`: the number of rows, which is the length of the
        id-ordered table the pages are cut from. */
    function GetTotalProducts(): (r: nat)
      reads this
      ensures r == |OrderById(products)|
    {
      |products|
    }

    /** `BuyProduct`: refuses a blank name or a quantity that is not
        positive, then a name no product has and a first match short of
        stock; otherwise takes `quantity` units from that product's stock in
        place and saves. */
    method BuyProduct(name: string, quantity: int) returns (ok: bool)
      requires Valid()
      modifies this
      ensures (ok, products) == BuyResult(old(products), name, quantity)
      ensures nextId == old(nextId)
      ensures Valid()
    {
      if IsBlank(name) || quantity <= 0 {
        return false;
      }
      var found := FirstByName(products, name);
      match found
      case None =>
        return false;
      case Some(i) =>
        if products[i].stock < quantity {
          return false;
        }
        var product := products[i];
        product := product.(stock := product.stock - quantity);
        BuyKeepsTableValid(products, nextId, name, quantity);
        products := products[i := product];
        ok := Save();
    }

    /** `CreateProduct`: stamps both dates with `now`, lets the identity
        column assign the id, appends the row and saves. */
    method CreateProduct(product: Product, now: int) returns (ok: bool, stored: Product)
      requires Valid()
      modifies this
      ensures stored == product.(productId := old(nextId), creationDate := now, updateDate := Some(now))
      ensures products == old(products) + [stored] && nextId == old(nextId) + 1
      ensures ok && GetProduct(stored.productId) == Some(stored)
      ensures Valid()
    {
      stored := product.(creationDate := now, updateDate := Some(now));
      stored := stored.(productId := nextId);
      AppendFreshKeepsUniqueKeys(products, ProductKey, stored);
      products := products + [stored];
      nextId := nextId + 1;
      assert products[|products| - 1] == stored;
      ok := Save();
    }

    /** `UpdateProduct`: stamps `UpdateDate` with `now` and hands the row to EF's
        `Update`. A row whose id is unset (0) is tracked as new and inserted
        under the next identity value; otherwise the row with the same
        id is overwritten, keeping every other row, and the store refuses an
        id it does not hold. */
    method UpdateProduct(product: Product, now: int) returns (r: Result<bool>)
      requires Valid()
      modifies this
      ensures var row := product.(updateDate := Some(now));
              if product.productId == 0 then
                && r == Ok(true)
                && products == old(products) + [row.(productId := old(nextId))]
                && nextId == old(nextId) + 1
              else
                && nextId == old(nextId)
                && match ReplaceByKey(old(products), ProductKey, row)
                   case None => r == Err(NoSuchRow) && products == old(products)
                   case Some(t) => r == Ok(true) && products == t
      ensures r.Ok? <==> product.productId == 0 || old(HasId(products, product.productId))
      ensures r.Ok? && product.productId != 0 ==> GetProduct(product.productId) == Some(product.(updateDate := Some(now)))
      ensures Valid()
    {
      var row := product.(updateDate := Some(now));
      if product.productId == 0 {
        var stored := row.(productId := nextId);
        AppendFreshKeepsUniqueKeys(products, ProductKey, stored);
        products := products + [stored];
        nextId := nextId + 1;
        var saved := Save();
        return Ok(saved);
      }
      var replaced := ReplaceByKey(products, ProductKey, row);
      if replaced.None? {
        return Err(NoSuchRow);
      }
      ReplaceKeepsUniqueKeys(products, ProductKey, row);
      products := replaced.value;
      var saved := Save();
      r := Ok(saved);
    }

    /** `DeleteProduct`: removes the row with the product's id and saves;
        the store refuses a row whose id it does not hold. */
    method DeleteProduct(product: Product) returns (r: Result<bool>)
      requires Valid()
      modifies this
      ensures match RemoveByKey(old(products), ProductKey, product.productId)
              case None => r == Err(NoSuchRow) && products == old(products)
              case Some(t) => r == Ok(true) && products == t
      ensures r.Ok? <==> old(HasId(products, product.productId))
      ensures r.Ok? ==> !HasId(products, product.productId) && |products| == old(|products|) - 1
      ensures nextId == old(nextId)
      ensures Valid()
    {
      var removed := RemoveByKey(products, ProductKey, product.productId);
      if removed.None? {
        return Err(NoSuchRow);
      }
      RemoveByKeyFacts(products, ProductKey, product.productId);
      products := removed.value;
      var saved := Save();
      r := Ok(saved);
    }
  }
}
