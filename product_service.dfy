/** The catalogue's `ProductService`: the rules it layers over the product
    repository (the order of its checks, the image-URL precedence, the page
    envelope) and the messages it fails with. */
module CatalogProductService {
  import opened Tables
  import opened Text
  import opened Products
  import opened CatalogProductRepository

  const CategoryMissing := "La categoría especificada no existe."
  const ProductTaken := "El producto ya existe."
  const ProductMissing := "El producto no existe."
  const NameNotFound := "El producto con el nombre especificado no existe."
  const OutOfStock := "No hay suficiente stock para completar la compra."
  /** The image a product created without any image gets. */
  const Placeholder := "https://placehold.com/600x400"

  /** `CreateProductDto` without the uploaded file, which only reaches the
      service as `imagePath`. A missing `CreationDate` is None. */
  datatype CreateProductDto = CreateProductDto(
    name: string,
    description: string,
    price: real,
    imgUrl: Option<string>,
    sku: string,
    stock: int,
    creationDate: Option<int>,
    categoryId: int)

  /** `UpdateProductDto` carries the same fields as the create DTO. */
  type UpdateProductDto = CreateProductDto

  /** `PaginationResponse<T>`. */
  datatype PaginationResponse<T> = PaginationResponse(
    totalItems: int,
    pageSize: int,
    pageNumber: int,
    totalPages: int,
    items: seq<T>)

  /** `!string.IsNullOrEmpty(s)`. */
  predicate HasText(s: Option<string>) {
    s.Some? && s.value != ""
  }

  /** The Mapster map from the DTO to a new `Product`: same-named fields are
      copied, a null `CreationDate` becomes the zero date, and the columns
      the DTO lacks keep the entity's initial values (id 0, `ImgUrlLocal`
      empty, `UpdateDate` null). */
  function FromDto(dto: CreateProductDto): (p: Product)
    ensures p.productId == 0 && p.updateDate == None && p.imgUrlLocal == Some("")
    ensures p.creationDate == if dto.creationDate.Some? then dto.creationDate.value else 0
    ensures && p.name == dto.name && p.description == dto.description && p.price == dto.price
            && p.imgUrl == dto.imgUrl && p.sku == dto.sku && p.stock == dto.stock
            && p.categoryId == dto.categoryId
  {
    Product(
      0, dto.name, dto.description, dto.price, dto.imgUrl, Some(""), dto.sku, dto.stock,
      if dto.creationDate.Some? then dto.creationDate.value else 0,
      None, dto.categoryId)
  }

  /** The image URL `CreateProductAsync` stores: the uploaded file's path,
      else the DTO's URL, else the placeholder; never empty. */
  function CreateImgUrl(imagePath: Option<string>, dtoImgUrl: Option<string>): (url: string)
    ensures url != ""
    ensures HasText(imagePath) ==> url == imagePath.value
    ensures !HasText(imagePath) && HasText(dtoImgUrl) ==> url == dtoImgUrl.value
    ensures !HasText(imagePath) && !HasText(dtoImgUrl) ==> url == Placeholder
  {
    if HasText(imagePath) then imagePath.value
    else if HasText(dtoImgUrl) then dtoImgUrl.value
    else Placeholder
  }

  /** The image URL `UpdateProductAsync` stores: the uploaded file's path,
      else whatever the DTO carried, even when that is null or empty. */
  function UpdateImgUrl(imagePath: Option<string>, dtoImgUrl: Option<string>): (url: Option<string>)
    ensures HasText(imagePath) ==> url == imagePath
    ensures !HasText(imagePath) ==> url == dtoImgUrl
  {
    if HasText(imagePath) then imagePath
    // The source tests the DTO's URL here, but both of its branches keep it.
    else if HasText(dtoImgUrl) then dtoImgUrl
    else dtoImgUrl
  }

  /** Create and update pick the same image whenever one of the two is
      given; with neither, only create falls back to the placeholder, and
      update stores the DTO's null or empty URL, dropping the stored one. */
  lemma ImgUrlCreateVersusUpdate(imagePath: Option<string>, dtoImgUrl: Option<string>)
    ensures HasText(imagePath) || HasText(dtoImgUrl) ==>
              UpdateImgUrl(imagePath, dtoImgUrl) == Some(CreateImgUrl(imagePath, dtoImgUrl))
    ensures !HasText(imagePath) && !HasText(dtoImgUrl) ==>
              && CreateImgUrl(imagePath, dtoImgUrl) == Placeholder
              && !HasText(UpdateImgUrl(imagePath, dtoImgUrl))
  {
  }

  /** No two products share a normalised name. `CreateProductAsync` keeps
      this; `UpdateProductAsync` does not check it. */
  ghost predicate UniqueNames(table: seq<Product>) {
    forall i, j :: 0 <= i < j < |table| ==> Normalize(table[i].name) != Normalize(table[j].name)
  }

  /** Appending a product whose name no row has keeps names unique. */
  lemma AppendUnnamedKeepsNamesUnique(table: seq<Product>, p: Product)
    requires UniqueNames(table) && !HasName(table, p.name)
    ensures UniqueNames(table + [p])
  {
    var t := table + [p];
    forall i, j | 0 <= i < j < |t| ensures Normalize(t[i].name) != Normalize(t[j].name) {
      if j == |table| {
        assert !NameMatches(table[i], p.name);
      }
    }
  }

  /** Because update does not check names, renaming one product to another's
      name goes through and leaves two products with the same normalised
      name. */
  lemma UpdateCanDuplicateName(table: seq<Product>, i: nat, j: nat, row: Product)
    requires UniqueKeys(table, ProductKey)
    requires i < |table| && j < |table| && i != j
    requires row.productId == table[j].productId && row.name == table[i].name
    ensures ReplaceByKey(table, ProductKey, row).Some?
    ensures !UniqueNames(ReplaceByKey(table, ProductKey, row).value)
  {
    assert ProductKey(table[j]) == row.productId;
    var t := ReplaceByKey(table, ProductKey, row).value;
    assert IndexOfKey(table, ProductKey, row.productId) == Some(j);
    assert t[i] == table[i] && t[j] == row;
    if i < j {
      assert Normalize(t[i].name) == Normalize(t[j].name);
    } else {
      assert Normalize(t[j].name) == Normalize(t[i].name);
    }
  }

  class ProductService {
    const repository: ProductRepository
    /** The ids of the Categories table, which `CategoryExists` consults. */
    const categoryIds: set<int>

    constructor (repository: ProductRepository, categoryIds: set<int>)
      ensures this.repository == repository && this.categoryIds == categoryIds
    {
      this.repository := repository;
      this.categoryIds := categoryIds;
    }

    ghost predicate Valid()
      reads repository
    {
      repository.Valid()
    }

    /** `GetAllProductsAsync`: every product, ordered by name. */
    function GetAllProductsAsync(): (r: seq<Product>)
      reads repository
      ensures Sorted(r, NameLeq) && multiset(r) == multiset(repository.products)
    {
      repository.GetProducts()
    }

    /** `GetProductByIdAsync`: the product with that id, or null. */
    function GetProductByIdAsync(productId: int): (r: Option<Product>)
      reads repository
      ensures r.Some? ==> r.value in repository.products && r.value.productId == productId
      ensures r.None? <==> !HasId(repository.products, productId)
    {
      repository.GetProduct(productId)
    }

    /** `GetProductsForCategoryAsync`: exactly the products of one category,
        each as often as the table holds it. */
    function GetProductsForCategoryAsync(categoryId: int): (r: seq<Product>)
      reads repository
      ensures forall p :: p in r <==> p in repository.products && p.categoryId == categoryId
      ensures forall p :: multiset(r)[p] == if p.categoryId == categoryId then multiset(repository.products)[p] else 0
    {
      repository.GetProductsInCategory(categoryId)
    }

    /** `SearchProductAsync`: exactly the products the normalised query
        matches by name or description, each as often as the table holds
        it. */
    function SearchProductAsync(name: string): (r: seq<Product>)
      reads repository
      ensures forall p :: p in r <==> p in repository.products && SearchMatches(p, name)
      ensures forall p :: multiset(r)[p] == if SearchMatches(p, name) then multiset(repository.products)[p] else 0
    {
      repository.SearchProduct(name)
    }

    /** `GetProductsInPageAsync`: the requested page with the table size and
        the page count `ceil(total / pageSize)`; the page has items exactly
        when its number is at most that count, and those pages together are
        the whole id-ordered table. */
    function GetProductsInPageAsync(page: int, pageSize: int): (r: PaginationResponse<Product>)
      reads repository
      requires page >= 1 && pageSize >= 1
      requires PageOffset(page, pageSize) <= 0x7fff_ffff
      ensures r.totalItems == |repository.products| && r.pageSize == pageSize && r.pageNumber == page
      ensures r.items == repository.GetProductsInPages(page, pageSize)
      ensures r.totalPages == CeilDiv(r.totalItems, pageSize)
      ensures r.items != [] <==> page <= r.totalPages
      ensures AllPages(OrderById(repository.products), pageSize, r.totalPages) == OrderById(repository.products)
    {
      var totalProducts := repository.GetTotalProducts();
      assert totalProducts == |repository.products|;
      var totalPages := CeilDiv(totalProducts, pageSize);
      PageNonEmptyIff(OrderById(repository.products), page, pageSize);
      PagesCoverTable(OrderById(repository.products), pageSize);
      PaginationResponse(totalProducts, pageSize, page, totalPages, repository.GetProductsInPages(page, pageSize))
    }

    /** `CreateProductAsync`: refuses an unknown category, then a taken name,
        changing nothing; otherwise stores the mapped DTO with the chosen
        image and returns the row read back by its new id. */
    method CreateProductAsync(dto: CreateProductDto, imagePath: Option<string>, now: int) returns (r: Result<Product>)
      requires Valid()
      modifies repository
      ensures Valid()
      ensures dto.categoryId !in categoryIds ==>
                r == Err(CategoryMissing) && unchanged(repository)
      ensures dto.categoryId in categoryIds && old(HasName(repository.products, dto.name)) ==>
                r == Err(ProductTaken) && unchanged(repository)
      ensures dto.categoryId in categoryIds && !old(HasName(repository.products, dto.name)) ==>
                && r.Ok?
                && r.value == FromDto(dto).(productId := old(repository.nextId),
                                            imgUrl := Some(CreateImgUrl(imagePath, dto.imgUrl)),
                                            creationDate := now, updateDate := Some(now))
                && repository.products == old(repository.products) + [r.value]
      ensures r.Ok? ==> HasText(r.value.imgUrl)
      ensures UniqueNames(old(repository.products)) ==> UniqueNames(repository.products)
    {
      if dto.categoryId !in categoryIds {
        return Err(CategoryMissing);
      }
      if repository.ProductExistsByName(dto.name) {
        return Err(ProductTaken);
      }
      var product := FromDto(dto);
      product := product.(imgUrl := Some(CreateImgUrl(imagePath, dto.imgUrl)));
      ghost var before := repository.products;
      var created, stored := repository.CreateProduct(product, now);
      if UniqueNames(before) {
        AppendUnnamedKeepsNamesUnique(before, stored);
      }
      var createdProduct := repository.GetProduct(stored.productId);
      r := Ok(createdProduct.value);
    }

    /** `UpdateProductAsync`: refuses an unknown product, then an unknown
        category, changing nothing; otherwise overwrites the row under that
        id with the mapped DTO and the chosen image. The new name is not
        checked against the other rows. */
    method UpdateProductAsync(productId: int, dto: UpdateProductDto, imagePath: Option<string>, now: int)
      returns (r: Result<bool>)
      requires Valid()
      modifies repository
      ensures Valid()
      ensures !old(HasId(repository.products, productId)) ==>
                r == Err(ProductMissing) && unchanged(repository)
      ensures old(HasId(repository.products, productId)) && dto.categoryId !in categoryIds ==>
                r == Err(CategoryMissing) && unchanged(repository)
      ensures old(HasId(repository.products, productId)) && dto.categoryId in categoryIds ==>
                var row := FromDto(dto).(productId := productId,
                                         imgUrl := UpdateImgUrl(imagePath, dto.imgUrl),
                                         updateDate := Some(now));
                && r == Ok(true)
                && ReplaceByKey(old(repository.products), ProductKey, row).Some?
                && repository.products == ReplaceByKey(old(repository.products), ProductKey, row).value
                && repository.GetProduct(productId) == Some(row)
    {
      if !repository.ProductExists(productId) {
        return Err(ProductMissing);
      }
      if dto.categoryId !in categoryIds {
        return Err(CategoryMissing);
      }
      var product := FromDto(dto);
      product := product.(productId := productId);
      product := product.(imgUrl := UpdateImgUrl(imagePath, dto.imgUrl));
      r := repository.UpdateProduct(product, now);
    }

    /** `DeleteProductAsync`: false, changing nothing, for an unknown id;
        otherwise removes exactly that row. */
    method DeleteProductAsync(productId: int) returns (r: Result<bool>)
      requires Valid()
      modifies repository
      ensures Valid()
      ensures !old(HasId(repository.products, productId)) ==> r == Ok(false) && unchanged(repository)
      ensures old(HasId(repository.products, productId)) ==>
                && r == Ok(true)
                && RemoveByKey(old(repository.products), ProductKey, productId).Some?
                && repository.products == RemoveByKey(old(repository.products), ProductKey, productId).value
                && !HasId(repository.products, productId)
    {
      var product := repository.GetProduct(productId);
      if product.None? {
        return Ok(false);
      }
      r := repository.DeleteProduct(product.value);
    }

    /** `BuyProductAsync`: fails "not found" when no name matches, changing
        nothing; otherwise runs the repository purchase and fails "no stock"
        when it refuses, which also covers a blank name or a quantity that
        is not positive. */
    method BuyProductAsync(name: string, quantity: int) returns (r: Result<bool>)
      requires Valid()
      modifies repository
      ensures Valid()
      ensures !old(HasName(repository.products, name)) ==> r == Err(NameNotFound) && unchanged(repository)
      ensures old(HasName(repository.products, name)) ==>
                var (ok, after) := BuyResult(old(repository.products), name, quantity);
                && repository.products == after
                && r == (if ok then Ok(true) else Err(OutOfStock))
    {
      var product := repository.GetProductByName(name);
      if product.None? {
        return Err(NameNotFound);
      }
      var result := repository.BuyProduct(name, quantity);
      if !result {
        return Err(OutOfStock);
      }
      r := Ok(true);
    }

    /** `ProductExistsAsync`. */
    function ProductExistsAsync(productId: int): (r: bool)
      reads repository
      ensures r <==> HasId(repository.products, productId)
    {
      repository.ProductExists(productId)
    }

    /** `ProductExistsByNameAsync`. */
    function ProductExistsByNameAsync(name: string): (r: bool)
      reads repository
      ensures r <==> HasName(repository.products, name)
    {
      repository.ProductExistsByName(name)
    }
  }
}
