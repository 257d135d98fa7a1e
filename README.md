# ApiExpanda catalogue core, modelled in Dafny

This project models the catalogue core of the ApiExpanda backend:

- the product repository, in its modular copy and its legacy copy;
- the product service;
- the company repository and service;
- the roles repository and service.

Each database table is a sequence of records held in a class, because
`FirstOrDefault` and `OrderBy` make row order matter. The class also holds
the next value of the table's identity column.

- **Repositories.** Each repository is a class with a `seq` field and a
  `nextId` field.
  - Its LINQ queries are functions that read that state.
  - Its `Add`/`Update`/`Remove` + `SaveChanges` operations are methods that
    reassign the sequence.
  - Each method keeps the store invariant `Valid()`: ids are unique and
    below `nextId`.
  - `BuyProduct` decrements a stock in place. It is proved equal to the
    specification function `Products.BuyResult`, and the stock properties
    are proved about that function.
- **Services.** Each service is a class holding its repository.
  - Thrown exceptions become `Result.Err` values that carry the original
    Spanish messages.
  - `DateTime.Now` becomes a `now` parameter.
  - The category repository the product service consults is a set of
    category ids.

Shared modules:

- `Text`: `ToLower().Trim()` as `Normalize`, plus substring search and a
  string order for `OrderBy(Name)`. These are simplifications: the model
  lower-cases ASCII letters only, trims the .NET `char.IsWhiteSpace` set and
  compares and orders strings ordinally. The queries run in SQL Server
  (`src/ApiExpanda.API/Program.cs:28`), where the column collation and
  `LTRIM(RTRIM())` decide these instead (see "Left out").
- `Tables`: the query operators.
  - `FirstOrDefault`, `Any`, `Where` and a proved insertion sort for
    `OrderBy`.
  - `Skip`/`Take` paging.
  - Replace-by-key and remove-by-key, the way EF's `Update` and `Remove`
    act on a stored row.
- Entity modules: `Products`, `Companies` and `Roles`.

A product update does not re-check name uniqueness; create does.
`CatalogProductService.UpdateCanDuplicateName` shows that an update can
leave two products with the same normalised name.

## Model

| member | source | states |
|---|---|---|
| Text.LowerFacts | src/ApiExpanda.Infrastructure/Modules/Catalogos/Repositories/ProductRepository.cs:39-42 | lower-casing leaves no ASCII capital, keeps whitespace exactly where it was, and changes nothing in a string with no capitals |
| Text.TrimShape | src/ApiExpanda.Infrastructure/Modules/Catalogos/Repositories/ProductRepository.cs:39-42 | `Trim` returns the contiguous middle of the string; both removed ends are all whitespace and the result neither starts nor ends with whitespace |
| Text.TrimEmptyIffBlank | src/ApiExpanda.Infrastructure/Modules/Catalogos/Repositories/ProductRepository.cs:46 | trimming gives the empty string exactly when the string is null-or-whitespace |
| Text.NormalizeShape | src/ApiExpanda.Infrastructure/Modules/Catalogos/Repositories/ProductRepository.cs:39-42 | a normalised name has no capitals and no whitespace at either end |
| Text.NormalizeIdempotent | src/ApiExpanda.Infrastructure/Modules/Catalogos/Repositories/ProductRepository.cs:39-42 | normalising twice is normalising once |
| Text.BlankIffNormalizesEmpty | src/ApiExpanda.Infrastructure/Modules/Catalogos/Repositories/ProductRepository.cs:27-32 | a string normalises to the empty string exactly when it is blank |
| Text.Normalize | src/ApiExpanda.Infrastructure/Modules/Catalogos/Repositories/ProductRepository.cs:39-42 | the name key `ToLower().Trim()` is never longer than the name it comes from |
| Text.Contains | src/ApiExpanda.Infrastructure/Modules/Catalogos/Repositories/ProductRepository.cs:27-32 | `Contains(s, t)` implies that `t` is no longer than `s` |
| Text.ContainsAt | src/ApiExpanda.Infrastructure/Modules/Catalogos/Repositories/ProductRepository.cs:27-32 | `Contains(s, t)` holds whenever `t` occurs in `s` at some position |
| Text.ContainsWitness | src/ApiExpanda.Infrastructure/Modules/Catalogos/Repositories/ProductRepository.cs:27-32 | conversely, when `Contains(s, t)` holds, `t` occurs in `s` at the position returned |
| Text.StrLeqTotal | src/ApiExpanda.Infrastructure/Modules/Catalogos/Repositories/ProductRepository.cs:17-20 | the ordinal order the model uses for `OrderBy(Name)` is total |
| Text.StrLeqTransitive | src/ApiExpanda.Infrastructure/Modules/Catalogos/Repositories/ProductRepository.cs:17-20 | that order is transitive |
| Text.KeyedStrLeqTotalPreorder | src/ApiExpanda.Infrastructure/Modules/Catalogos/Repositories/ProductRepository.cs:17-20 | ordering records by that order on any string key is a total preorder, which `OrderBy` needs |
| Tables.Save | src/ApiExpanda.Infrastructure/Modules/Catalogos/Repositories/ProductRepository.cs:91-94 | `SaveChanges() >= 0` always reports success, since `SaveChanges` never returns a negative count |
| Tables.Any | src/ApiExpanda.Infrastructure/Modules/Catalogos/Repositories/ProductRepository.cs:60-63 | `Any(P)` holds exactly when some record of the table satisfies P, and never on an empty table |
| Tables.FirstWhere | src/ApiExpanda.Infrastructure/Modules/Catalogos/Repositories/ProductRepository.cs:34-42 | `FirstOrDefault` finds a matching row with no match before it, and finds nothing exactly when no row matches |
| Tables.Where | src/ApiExpanda.Infrastructure/Modules/Catalogos/Repositories/ProductRepository.cs:22-32 | `Where` keeps exactly the rows that satisfy the predicate |
| Tables.WhereMultiset | src/ApiExpanda.Infrastructure/Modules/Catalogos/Repositories/ProductRepository.cs:22-25 | `Where` keeps every matching row as often as the table holds it, and no other row |
| Tables.WhereAppend | src/ApiExpanda.Infrastructure/Modules/Catalogos/Repositories/ProductRepository.cs:22-32 | `Where` keeps table order: filtering a concatenation is concatenating the filtered parts |
| Tables.WhereAll | src/ApiExpanda.Infrastructure/Modules/Catalogos/Repositories/ProductRepository.cs:27-32 | when every row matches, `Where` returns the table itself |
| Tables.IndexOfKey | src/ApiExpanda.Infrastructure/Modules/Catalogos/Repositories/ProductRepository.cs:34-37 | the lookup by primary key finds the row with that key, finds nothing exactly when no row has it, and under unique keys the row found is the only one |
| Tables.ReplaceByKey | src/ApiExpanda.Infrastructure/Modules/Catalogos/Repositories/ProductRepository.cs:78-83 | `Update` fails exactly when no row has the key; otherwise it overwrites that row and keeps every other row and the length |
| Tables.RemoveByKey | src/ApiExpanda.Infrastructure/Modules/Catalogos/Repositories/ProductRepository.cs:85-89 | `Remove` fails exactly when no row has the key; otherwise it cuts that one row out, keeping the others in order |
| Tables.ReplaceKeepsUniqueKeys | src/ApiExpanda.Infrastructure/Modules/Catalogos/Repositories/ProductRepository.cs:78-83 | an update keeps every row's key, so the primary key stays unique |
| Tables.RemoveByKeyFacts | src/ApiExpanda.Infrastructure/Modules/Catalogos/Repositories/ProductRepository.cs:85-89 | a removal takes out exactly one row: no row with that key is left, the table is one shorter and its multiset loses exactly that row |
| Tables.RemoveAtKeepsUniqueKeys | src/ApiExpanda.Infrastructure/Modules/Catalogos/Repositories/ProductRepository.cs:85-89 | cutting out one row keeps the primary key unique and leaves no row with that row's key |
| Tables.AppendFreshKeepsUniqueKeys | src/ApiExpanda.Infrastructure/Modules/Catalogos/Repositories/ProductRepository.cs:70-76 | adding a row under a fresh identity value keeps the primary key unique |
| Tables.PermutationKeepsUniqueKeys | src/ApiExpanda.Infrastructure/Modules/Catalogos/Repositories/ProductRepository.cs:96-104 | reordering rows keeps keys unique |
| Tables.SortBy | src/ApiExpanda.Infrastructure/Modules/Catalogos/Repositories/ProductRepository.cs:17-20 | `OrderBy` returns a sorted permutation of the table |
| Tables.SkipTakeShape | src/ApiExpanda.Infrastructure/Modules/Catalogos/Repositories/ProductRepository.cs:101-102 | `Take(n)` is the prefix of the first `min(n, len)` records and `Skip(n)` the suffix after it, so together they give back the table; for `n <= 0`, `Skip` keeps everything and `Take` nothing |
| Tables.Page | src/ApiExpanda.Infrastructure/Modules/Catalogos/Repositories/ProductRepository.cs:101-102 | `Skip((p-1)*s).Take(s)` has at most `s` rows; it is empty past the end and otherwise holds `min(s, n - offset)` rows, the rows from the offset on |
| Tables.PageSlice | src/ApiExpanda.Infrastructure/Modules/Catalogos/Repositories/ProductRepository.cs:101-102 | a page is the slice `[min(off, n), min(off + s, n))` |
| Tables.CeilDiv | src/ApiExpanda.Infrastructure/Modules/Catalogos/Services/ProductService.cs:44 | `Math.Ceiling(total / (double)size)` is the least count of pages of `size` rows that holds `total` rows |
| Tables.AllPagesPrefix | src/ApiExpanda.Infrastructure/Modules/Catalogos/Services/ProductService.cs:44-45 | pages 1..k together are the first `k*size` rows |
| Tables.PagesCoverTable | src/ApiExpanda.Infrastructure/Modules/Catalogos/Services/ProductService.cs:44-45 | pages 1..TotalPages together are the whole table |
| Tables.PageNonEmptyIff | src/ApiExpanda.Infrastructure/Modules/Catalogos/Services/ProductService.cs:44-45 | a page has rows exactly when its number is at most TotalPages |
| Products.FirstByName | src/ApiExpanda.Infrastructure/Modules/Catalogos/Repositories/ProductRepository.cs:39-42 | the name lookup finds a product whose normalised name equals the normalised argument, and nothing exactly when none does |
| Products.FirstByNameIsFirst | src/ApiExpanda.Infrastructure/Modules/Catalogos/Repositories/ProductRepository.cs:39-42 | no product before the one found matches the name, so the lookup finds the first match |
| Products.OrderById | src/ApiExpanda.Infrastructure/Modules/Catalogos/Repositories/ProductRepository.cs:100 | `OrderBy(ProductId)` is a permutation sorted by id |
| Products.OrderByName | src/ApiExpanda.Infrastructure/Modules/Catalogos/Repositories/ProductRepository.cs:19 | `OrderBy(Name)` is a permutation sorted by name |
| Products.OrderByIdStrict | src/ApiExpanda.Infrastructure/Modules/Catalogos/Repositories/ProductRepository.cs:96-104 | under the primary key the id order is strictly increasing, so pages never share or skip a row |
| Products.BuyResult | src/ApiExpanda.Infrastructure/Modules/Catalogos/Repositories/ProductRepository.cs:44-58 | a purchase succeeds exactly when the name is not blank, the quantity is positive and the first name match has enough stock; a refusal changes nothing; the table keeps its length |
| Products.BuyChangesOnlyFirstMatch | src/ApiExpanda.Infrastructure/Modules/Catalogos/Repositories/ProductRepository.cs:55-57 | a successful purchase changes only the first match, and only its stock, which drops by exactly the quantity and stays non-negative; every other row is unchanged |
| Products.BuyKeepsStockNonNegative | src/ApiExpanda.Infrastructure/Modules/Catalogos/Repositories/ProductRepository.cs:51-55 | stock never goes negative: a purchase on a table without negative stock leaves none |
| Products.BuyKeepsTableValid | src/ApiExpanda.Infrastructure/Modules/Catalogos/Repositories/ProductRepository.cs:55-57 | a purchase changes no id, so the primary key stays unique and every id stays below the identity counter |
| Products.BuyConservesStock | src/ApiExpanda.Infrastructure/Modules/Catalogos/Repositories/ProductRepository.cs:55-57 | a purchase removes exactly `quantity` units from the catalogue's total stock, or none when refused |
| Products.BuyKeepsNameLookup | src/ApiExpanda.Infrastructure/Modules/Catalogos/Repositories/ProductRepository.cs:50-55 | a purchase renames nothing: every name finds the same product before and after |
| Products.BuyWholeStockThenNothingLeft | src/ApiExpanda.Infrastructure/Modules/Catalogos/Repositories/ProductRepository.cs:51-55 | buying a product's whole stock succeeds and leaves zero; any further purchase of it is then refused |
| Products.SearchFindsNamedProduct | src/ApiExpanda.Infrastructure/Modules/Catalogos/Repositories/ProductRepository.cs:27-42 | searching for a product's own name finds that product |
| Products.SearchBlankIsWholeTable | src/ApiExpanda.Infrastructure/Modules/Catalogos/Repositories/ProductRepository.cs:27-32 | a blank query returns the whole table in table order |
| CatalogProductRepository.ProductRepository.GetProducts | src/ApiExpanda.Infrastructure/Modules/Catalogos/Repositories/ProductRepository.cs:17-20 | every product, sorted by name, as a permutation of the table |
| CatalogProductRepository.ProductRepository.GetProductsInCategory | src/ApiExpanda.Infrastructure/Modules/Catalogos/Repositories/ProductRepository.cs:22-25 | exactly the products of that category, each as often as the table holds it |
| CatalogProductRepository.ProductRepository.SearchProduct | src/ApiExpanda.Infrastructure/Modules/Catalogos/Repositories/ProductRepository.cs:27-32 | exactly the products whose normalised name or description contains the normalised query, each as often as the table holds it |
| CatalogProductRepository.ProductRepository.GetProduct | src/ApiExpanda.Infrastructure/Modules/Catalogos/Repositories/ProductRepository.cs:34-37 | the stored product with that id, or null exactly when no product has it |
| CatalogProductRepository.ProductRepository.GetProductByName | src/ApiExpanda.Infrastructure/Modules/Catalogos/Repositories/ProductRepository.cs:39-42 | the first stored product whose normalised name matches, with no match before it, or null exactly when none does |
| CatalogProductRepository.ProductRepository.ProductExists | src/ApiExpanda.Infrastructure/Modules/Catalogos/Repositories/ProductRepository.cs:60-63 | true exactly when some product has the id, that is when `GetProduct` is not null |
| CatalogProductRepository.ProductRepository.ProductExistsByName | src/ApiExpanda.Infrastructure/Modules/Catalogos/Repositories/ProductRepository.cs:65-68 | true exactly when some normalised name matches, that is when `GetProductByName` is not null |
| CatalogProductRepository.ProductRepository.GetProductsInPages | src/ApiExpanda.Infrastructure/Modules/Catalogos/Repositories/ProductRepository.cs:96-104 | at most `pageSize` rows: the id-ordered table's slice `[min((p-1)*s, n), min((p-1)*s + s, n))` |
| CatalogProductRepository.ProductRepository.GetTotalProducts | src/ApiExpanda.Infrastructure/Modules/Catalogos/Repositories/ProductRepository.cs:106-109 | the length of the id-ordered table the pages are cut from, which is the number of rows |
| CatalogProductRepository.ProductRepository.BuyProduct | src/ApiExpanda.Infrastructure/Modules/Catalogos/Repositories/ProductRepository.cs:44-58 | the result and the new table are exactly `BuyResult` of the old table; ids and the identity column are kept |
| CatalogProductRepository.ProductRepository.CreateProduct | src/ApiExpanda.Infrastructure/Modules/Catalogos/Repositories/ProductRepository.cs:70-76 | appends exactly one row, stamped `CreationDate = UpdateDate = now` under the next id, which `GetProduct` then finds |
| CatalogProductRepository.ProductRepository.UpdateProduct | src/ApiExpanda.Infrastructure/Modules/Catalogos/Repositories/ProductRepository.cs:78-83 | id 0, the unset key, is inserted as a new row under the next id; any other id replaces only the row with that id, setting `UpdateDate = now` and keeping the given `CreationDate`, and an id the store lacks is refused, changing nothing |
| CatalogProductRepository.ProductRepository.DeleteProduct | src/ApiExpanda.Infrastructure/Modules/Catalogos/Repositories/ProductRepository.cs:85-89 | removes only the row with that id, leaving no row with it; refuses an id the store lacks, changing nothing |
| LegacyProductRepository.ProductRepository.GetProducts | src/ApiExpanda.Infrastructure/Repositories/ProductRepository.cs:20-23 | every product, sorted by name, as a permutation of the table |
| LegacyProductRepository.ProductRepository.GetProductsInCategory | src/ApiExpanda.Infrastructure/Repositories/ProductRepository.cs:25-28 | exactly the products of that category, each as often as the table holds it |
| LegacyProductRepository.ProductRepository.SearchProduct | src/ApiExpanda.Infrastructure/Repositories/ProductRepository.cs:31-36 | exactly the products whose normalised name or description contains the normalised query, each as often as the table holds it |
| LegacyProductRepository.ProductRepository.GetProduct | src/ApiExpanda.Infrastructure/Repositories/ProductRepository.cs:39-42 | the stored product with that id, or null exactly when no product has it |
| LegacyProductRepository.ProductRepository.GetProductByName | src/ApiExpanda.Infrastructure/Repositories/ProductRepository.cs:44-47 | the first stored product whose normalised name matches, with no match before it, or null exactly when none does |
| LegacyProductRepository.ProductRepository.ProductExists | src/ApiExpanda.Infrastructure/Repositories/ProductRepository.cs:66-69 | true exactly when some product has the id, that is when `GetProduct` is not null |
| LegacyProductRepository.ProductRepository.ProductExistsByName | src/ApiExpanda.Infrastructure/Repositories/ProductRepository.cs:71-74 | true exactly when some normalised name matches, that is when `GetProductByName` is not null |
| LegacyProductRepository.ProductRepository.GetProductsInPages | src/ApiExpanda.Infrastructure/Repositories/ProductRepository.cs:103-110 | at most `pageSize` rows: the id-ordered table's slice at offset `(p-1)*s` |
| LegacyProductRepository.ProductRepository.GetTotalProducts | src/ApiExpanda.Infrastructure/Repositories/ProductRepository.cs:112-115 | the length of the id-ordered table the pages are cut from, which is the number of rows |
| LegacyProductRepository.ProductRepository.BuyProduct | src/ApiExpanda.Infrastructure/Repositories/ProductRepository.cs:49-63 | the result and the new table are exactly `BuyResult` of the old table |
| LegacyProductRepository.ProductRepository.CreateProduct | src/ApiExpanda.Infrastructure/Repositories/ProductRepository.cs:76-82 | appends exactly one row stamped `now` under the next id |
| LegacyProductRepository.ProductRepository.UpdateProduct | src/ApiExpanda.Infrastructure/Repositories/ProductRepository.cs:84-90 | id 0 is inserted as a new row under the next id; any other id replaces only the row with that id, overwriting both `CreationDate` and `UpdateDate` with `now`, and an id the store lacks is refused |
| LegacyProductRepository.ProductRepository.DeleteProduct | src/ApiExpanda.Infrastructure/Repositories/ProductRepository.cs:92-96 | removes only the row with that id; refuses an id the store lacks |
| CatalogProductService.FromDto | src/ApiExpanda.Infrastructure/Modules/Catalogos/Services/ProductService.cs:73 | the Mapster map copies every DTO field, turns a null `CreationDate` into the zero date, and leaves id 0, `ImgUrlLocal` empty and `UpdateDate` null, the entity's initial values |
| CatalogProductService.CreateImgUrl | src/ApiExpanda.Infrastructure/Modules/Catalogos/Services/ProductService.cs:76-87 | the uploaded path if non-empty, else the DTO URL if non-empty, else the placeholder; never empty |
| CatalogProductService.UpdateImgUrl | src/ApiExpanda.Infrastructure/Modules/Catalogos/Services/ProductService.cs:118-125 | the uploaded path if non-empty, else whatever the DTO carried |
| CatalogProductService.ImgUrlCreateVersusUpdate | src/ApiExpanda.Infrastructure/Modules/Catalogos/Services/ProductService.cs:76-87 | create and update agree whenever an image is given; with none, only create falls back to the placeholder |
| CatalogProductService.AppendUnnamedKeepsNamesUnique | src/ApiExpanda.Infrastructure/Modules/Catalogos/Services/ProductService.cs:68-71 | adding a product whose name no row matches keeps normalised names unique |
| CatalogProductService.UpdateCanDuplicateName | src/ApiExpanda.Infrastructure/Modules/Catalogos/Services/ProductService.cs:100-128 | update checks no names: renaming a product to another's name succeeds and breaks name uniqueness |
| CatalogProductService.ProductService.GetAllProductsAsync | src/ApiExpanda.Infrastructure/Modules/Catalogos/Services/ProductService.cs:26-30 | every product, sorted by name, as a permutation of the table |
| CatalogProductService.ProductService.GetProductByIdAsync | src/ApiExpanda.Infrastructure/Modules/Catalogos/Services/ProductService.cs:32-39 | the product with that id, or null exactly when none has it |
| CatalogProductService.ProductService.GetProductsForCategoryAsync | src/ApiExpanda.Infrastructure/Modules/Catalogos/Services/ProductService.cs:139-143 | exactly the products of that category, each as often as the table holds it |
| CatalogProductService.ProductService.SearchProductAsync | src/ApiExpanda.Infrastructure/Modules/Catalogos/Services/ProductService.cs:145-149 | exactly the products the normalised query matches by name or description, each as often as the table holds it |
| CatalogProductService.ProductService.GetProductsInPageAsync | src/ApiExpanda.Infrastructure/Modules/Catalogos/Services/ProductService.cs:41-57 | echoes page, size and row count; TotalPages is `CeilDiv(count, size)`, the least page count that holds every row; the items are that page, non-empty exactly when the page number is at most TotalPages; pages 1..TotalPages together are the whole id-ordered table |
| CatalogProductService.ProductService.CreateProductAsync | src/ApiExpanda.Infrastructure/Modules/Catalogos/Services/ProductService.cs:59-98 | an unknown category fails first, then a taken normalised name, each changing nothing; otherwise appends exactly the mapped DTO with the chosen image, stamped `now`, under the next id, and returns it; the stored image is never empty; unique names stay unique |
| CatalogProductService.ProductService.UpdateProductAsync | src/ApiExpanda.Infrastructure/Modules/Catalogos/Services/ProductService.cs:100-128 | an unknown id fails first, then an unknown category, each changing nothing; otherwise only the row under that id is replaced by the mapped DTO with the chosen image and `UpdateDate = now` |
| CatalogProductService.ProductService.DeleteProductAsync | src/ApiExpanda.Infrastructure/Modules/Catalogos/Services/ProductService.cs:130-137 | false with no change for an unknown id; otherwise true, and only that product is removed |
| CatalogProductService.ProductService.BuyProductAsync | src/ApiExpanda.Infrastructure/Modules/Catalogos/Services/ProductService.cs:151-162 | fails "not found" with no change when no name matches; otherwise the table is `BuyResult`'s, and the answer is true or "not enough stock" as the purchase went |
| CatalogProductService.ProductService.ProductExistsAsync | src/ApiExpanda.Infrastructure/Modules/Catalogos/Services/ProductService.cs:164-167 | true exactly when some product has the id |
| CatalogProductService.ProductService.ProductExistsByNameAsync | src/ApiExpanda.Infrastructure/Modules/Catalogos/Services/ProductService.cs:169-172 | true exactly when some normalised name matches |
| Companies.FirstByCode | src/ApiExpanda.Infrastructure/Modules/Catalogos/Repositories/CompanyRepository.cs:30-34 | the first company whose code equals the argument exactly, and nothing exactly when none has it |
| Companies.OrderByName | src/ApiExpanda.Infrastructure/Modules/Catalogos/Repositories/CompanyRepository.cs:19-21 | `OrderBy(Name)` is a permutation sorted by name |
| Companies.FirstByCodeIsOnly | src/ApiExpanda.Infrastructure/Modules/Catalogos/Repositories/CompanyRepository.cs:30-34 | under unique codes the company a code finds is the only one with it |
| Companies.AppendFreshCodeKeepsCodesUnique | src/ApiExpanda.Infrastructure/Modules/Catalogos/Services/CompanyService.cs:46-54 | adding a company whose code is free keeps codes unique |
| Companies.ReplaceKeepsCodesUnique | src/ApiExpanda.Infrastructure/Modules/Catalogos/Services/CompanyService.cs:69-79 | an update whose code is free or held by the same company keeps codes unique |
| CatalogCompanyRepository.CompanyRepository.GetCompanies | src/ApiExpanda.Infrastructure/Modules/Catalogos/Repositories/CompanyRepository.cs:17-22 | every company, sorted by name, as a permutation of the table |
| CatalogCompanyRepository.CompanyRepository.GetCompany | src/ApiExpanda.Infrastructure/Modules/Catalogos/Repositories/CompanyRepository.cs:24-28 | the stored company with that id, or null exactly when none has it |
| CatalogCompanyRepository.CompanyRepository.GetCompanyByCode | src/ApiExpanda.Infrastructure/Modules/Catalogos/Repositories/CompanyRepository.cs:30-34 | the first stored company whose code is exactly the argument, with none before it, or null exactly when none has it |
| CatalogCompanyRepository.CompanyRepository.CompanyExists | src/ApiExpanda.Infrastructure/Modules/Catalogos/Repositories/CompanyRepository.cs:56-59 | true exactly when some company has the id, that is when `GetCompany` is not null |
| CatalogCompanyRepository.CompanyRepository.CompanyExistsByCode | src/ApiExpanda.Infrastructure/Modules/Catalogos/Repositories/CompanyRepository.cs:61-64 | true exactly when some company has the code, that is when `GetCompanyByCode` is not null |
| CatalogCompanyRepository.CompanyRepository.CreateCompany | src/ApiExpanda.Infrastructure/Modules/Catalogos/Repositories/CompanyRepository.cs:36-41 | appends exactly one row, stamped `CreateAt = now` under the next id and active whatever the caller asked, since the `IsActive` column defaults to `true` and EF leaves a `false` out of the insert |
| CatalogCompanyRepository.CompanyRepository.UpdateCompany | src/ApiExpanda.Infrastructure/Modules/Catalogos/Repositories/CompanyRepository.cs:43-48 | id 0 is inserted as a new, active row under the next id; any other id replaces only the row with that id, setting `UpdateAt = now`, and an id the store lacks is refused |
| CatalogCompanyRepository.CompanyRepository.DeleteCompany | src/ApiExpanda.Infrastructure/Modules/Catalogos/Repositories/CompanyRepository.cs:50-54 | removes only the row with that id; refuses an id the store lacks |
| CatalogCompanyService.FromCreateDto | src/ApiExpanda.Application/Modules/Catalogos/Mappings/CompanyProfile.cs:13-15 | the create map copies name, code, RFC and active flag, stamps `CreateAt = now`, leaves `UpdateAt` null and the id 0 |
| CatalogCompanyService.FromUpdateDto | src/ApiExpanda.Application/Modules/Catalogos/Mappings/CompanyProfile.cs:17-18 | the update map is the create map with `UpdateAt = now`: `CreateAt`, which the DTO lacks, also becomes now |
| CatalogCompanyService.CodeClash | src/ApiExpanda.Infrastructure/Modules/Catalogos/Services/CompanyService.cs:70-71 | an update clashes only when a company with a different id holds the code, and never when no company has the code |
| CatalogCompanyService.UpdateStepAsWritten | src/ApiExpanda.Infrastructure/Modules/Catalogos/Services/CompanyService.cs:61-80 | the update as written under EF tracking: unknown id first, then a code held by another id, then success exactly when no company has the code; a company keeping its own code ends in a second tracked instance |
| CatalogCompanyService.KeepingOwnCodeFailsAsWritten | src/ApiExpanda.Infrastructure/Modules/Catalogos/Services/CompanyService.cs:69-79 | under unique codes, updating a company with its own code raises no clash, yet as written fails with a second tracked instance |
| CatalogCompanyService.UpdateStepIntended | src/ApiExpanda.Infrastructure/Modules/Catalogos/Services/CompanyService.cs:61-80 | the update as intended: unknown id first, then a code held by another id, otherwise success, never a tracking conflict; it agrees with the as-written update whenever no company has the code |
| CatalogCompanyService.KeepingOwnCodeSucceedsAsIntended | src/ApiExpanda.Infrastructure/Modules/Catalogos/Services/CompanyService.cs:69-79 | under unique codes, updating a company with its own code succeeds as intended |
| CatalogCompanyService.CodeClashIff | src/ApiExpanda.Infrastructure/Modules/Catalogos/Services/CompanyService.cs:69-74 | under unique codes, an update clashes exactly when a company with a different id holds the code, so keeping one's own code is allowed |
| CatalogCompanyService.CompanyService.GetAllCompaniesAsync | src/ApiExpanda.Infrastructure/Modules/Catalogos/Services/CompanyService.cs:20-24 | every company, sorted by name, as a permutation of the table |
| CatalogCompanyService.CompanyService.GetCompanyByIdAsync | src/ApiExpanda.Infrastructure/Modules/Catalogos/Services/CompanyService.cs:26-33 | the company with that id, or null exactly when none has it |
| CatalogCompanyService.CompanyService.GetCompanyByCodeAsync | src/ApiExpanda.Infrastructure/Modules/Catalogos/Services/CompanyService.cs:35-42 | the first company with exactly that code, with none before it, or null exactly when none has it |
| CatalogCompanyService.CompanyService.CompanyExistsAsync | src/ApiExpanda.Infrastructure/Modules/Catalogos/Services/CompanyService.cs:91-94 | true exactly when some company has the id |
| CatalogCompanyService.CompanyService.CompanyExistsByCodeAsync | src/ApiExpanda.Infrastructure/Modules/Catalogos/Services/CompanyService.cs:96-99 | true exactly when some company has the code |
| CatalogCompanyService.CompanyService.CreateCompanyAsync | src/ApiExpanda.Infrastructure/Modules/Catalogos/Services/CompanyService.cs:44-59 | a taken code fails, inserting nothing; otherwise exactly one company is added and returned, with `CreateAt = now`, null `UpdateAt`, the next id and `IsActive = true` whatever the DTO says, after which the code exists; unique codes stay unique |
| CatalogCompanyService.CompanyService.UpdateCompanyAsync | src/ApiExpanda.Infrastructure/Modules/Catalogos/Services/CompanyService.cs:61-80 | an unknown id fails first, then a code held by a different company, each changing nothing; otherwise only the row under that id is replaced, stored under `Id = id` with both dates `now`; it succeeds exactly when `UpdateStepIntended` says so, so a company may keep its own code; unique codes stay unique |
| CatalogCompanyService.CompanyService.DeleteCompanyAsync | src/ApiExpanda.Infrastructure/Modules/Catalogos/Services/CompanyService.cs:82-89 | false with no change for an unknown id; otherwise true, and only that company is removed |
| Roles.OrderByName | src/ApiExpanda.Infrastructure/Modules/Catalogos/Repositories/RolesRepository.cs:19-21 | `OrderBy(Name)` is a permutation sorted by name |
| CatalogRoleRepository.RolesRepository.GetRoles | src/ApiExpanda.Infrastructure/Modules/Catalogos/Repositories/RolesRepository.cs:17-22 | every role, sorted by name, as a permutation of the table |
| CatalogRoleRepository.RolesRepository.GetRole | src/ApiExpanda.Infrastructure/Modules/Catalogos/Repositories/RolesRepository.cs:24-28 | the stored role with that id, or null exactly when none has it |
| CatalogRoleRepository.RolesRepository.RoleExists | src/ApiExpanda.Infrastructure/Modules/Catalogos/Repositories/RolesRepository.cs:57-60 | true exactly when some role has the id, that is when `GetRole` is not null |
| CatalogRoleRepository.RolesRepository.CreateRole | src/ApiExpanda.Infrastructure/Modules/Catalogos/Repositories/RolesRepository.cs:30-35 | appends exactly one row, stamped `CreatedAt = now` under the next id |
| CatalogRoleRepository.RolesRepository.UpdateRole | src/ApiExpanda.Infrastructure/Modules/Catalogos/Repositories/RolesRepository.cs:37-49 | id 0 is inserted as a new row under the next id; any other id replaces only the row with that id, setting `UpdatedAt = now`, and an id the store lacks is refused |
| CatalogRoleRepository.RolesRepository.DeleteRole | src/ApiExpanda.Infrastructure/Modules/Catalogos/Repositories/RolesRepository.cs:51-55 | removes only the row with that id; refuses an id the store lacks |
| CatalogRoleService.FromCreateDto | src/ApiExpanda.Application/Modules/Catalogos/Mappings/RoleProfile.cs:13-15 | the create map copies name, description and active flag, stamps `CreatedAt = now`, leaves `UpdatedAt` null and the id 0 |
| CatalogRoleService.FromUpdateDto | src/ApiExpanda.Application/Modules/Catalogos/Mappings/RoleProfile.cs:17-18 | the update map is the create map with `UpdatedAt = now`: `CreatedAt`, which the DTO lacks, also becomes now |
| CatalogRoleService.RoleService.GetAllRolesAsync | src/ApiExpanda.Infrastructure/Modules/Catalogos/Services/RoleService.cs:19-23 | every role, sorted by name, as a permutation of the table |
| CatalogRoleService.RoleService.GetRoleByIdAsync | src/ApiExpanda.Infrastructure/Modules/Catalogos/Services/RoleService.cs:24-31 | the role with that id, or null exactly when none has it |
| CatalogRoleService.RoleService.CreateRoleAsync | src/ApiExpanda.Infrastructure/Modules/Catalogos/Services/RoleService.cs:32-41 | always adds exactly one role, whatever names exist, with `CreatedAt = now`, null `UpdatedAt` and the next id |
| CatalogRoleService.RoleService.UpdateRoleAsync | src/ApiExpanda.Infrastructure/Modules/Catalogos/Services/RoleService.cs:42-54 | fails "El rol no existe" with no change for an unknown id; otherwise only the row under that id is replaced, stored under `Id = id` with both dates `now` |
| CatalogRoleService.RoleService.DeleteRoleAsync | src/ApiExpanda.Infrastructure/Modules/Catalogos/Services/RoleService.cs:57-67 | fails "El rol no existe", rather than answering false, with no change for an unknown id; otherwise only that role is removed |
| CatalogRoleService.RoleService.RoleExistsAsync | src/ApiExpanda.Infrastructure/Modules/Catalogos/Services/RoleService.cs:69-73 | true exactly when `GetRole` finds the id, that is when some role has it |

## Left out

- Controllers are not part of this model: HTTP status shaping, model-state validation and the image upload to disk.
  - Their guards become preconditions: page and page size at least 1 (`src/ApiExpanda.API/Controllers/Catalogos/ProductsController.cs:57`).
  - The purchase guards (non-blank name, positive quantity, `src/ApiExpanda.API/Controllers/Catalogos/ProductsController.cs:227-234`) are not preconditions, because the repository checks them again itself; `BuyProduct` takes any name and quantity.
- Dependency injection, authentication, Swagger, caching and versioning are not modelled.
  - The role repository and role service are not registered in `src/ApiExpanda.API/Program.cs:49-62`.
  - They are modelled as written, not as wired.
- Users, ASP.NET Identity and JWT issuing are foreign calls and are not modelled.
- The DTO projections are not modelled.
  - This covers `ProductDto`, `CompanyDto`, `RoleDto` and the `CategoryName` flattening.
  - The read operations return the entity rows themselves.
  - The Mapster maps into entities are written out as field copies. Columns a DTO lacks keep the entity's initial value, and `DateTime.Now` initialisers become `now`.
  - The update DTOs are not part of this model. They are taken to carry the same fields as the create DTOs.
- The database's own constraints are not modelled: unique SKU, category name and company code indexes, and restrict-on-delete.
  - Only the primary key is a store invariant, with identity values from 1 up.
  - The `IsActive` default of `true` on companies (`src/ApiExpanda.Infrastructure/Modules/Catalogos/Data/Configurations/CompanyConfiguration.cs:26-28`) is modelled on insert.
  - Code and name uniqueness are stated as predicates (`UniqueCodes`, `UniqueNames`). The service operations are proved to preserve them.
- EF change tracking is not modelled.
  - `Update` and `Remove` act by primary key on the stored row.
  - `Update` of an entity whose key is 0, the unset value, inserts it, as EF does. An update of any other key the store lacks becomes `Err(NoSuchRow)`, where EF throws a concurrency exception.
  - `Remove` acts by key: a key the store lacks, 0 included, becomes `Err(NoSuchRow)`. EF's handling of an unset key on `Remove` is not modelled; the services look the row up first and never pass one.
  - `CompanyService.UpdateCompanyAsync` looks the company up by code and so tracks it. It then updates a second instance with the same key, which EF refuses. `CatalogCompanyService.UpdateStepAsWritten` models that outcome; `CompanyService.UpdateCompanyAsync` follows `CatalogCompanyService.UpdateStepIntended` instead (see "Findings").
- `Save` is `SaveChanges() >= 0`, which always holds.
  - So the "Error al crear la compañía", "Error al crear el rol" and "Error al crear el producto" branches are unreachable and are left out.
  - So is "No se pudo recuperar el producto creado.".
- The clock is a `now` parameter. Dates are integers.
- `Price` is a decimal in the source and a `real` here; nothing in the core computes with it.
- Floating point is not modelled: `Math.Ceiling` over a `double` is integer ceiling division, which is exact for 32-bit operands.
- 32-bit overflow is not modelled: integers are unbounded.
  - `CatalogProductRepository.ProductRepository.GetProductsInPages`: the caller must keep the offset `(page-1)*pageSize` within 32 bits, instead of the source's wrap-around.
  - `LegacyProductRepository.ProductRepository.GetProductsInPages` has the same precondition.
  - Stock arithmetic cannot overflow, because it only subtracts a positive quantity no larger than the stock.
- Text is simplified. The LINQ queries are translated to SQL Server, and the model does not follow that translation.
  - Lower-casing: the model lower-cases ASCII letters only; SQL `LOWER` follows the collation.
  - Trimming: the model trims the .NET `char.IsWhiteSpace` set; `Trim()` on a column becomes `LTRIM(RTRIM())`, which strips spaces only.
  - Equality and `Contains`: the model compares ordinally; SQL `=` and `LIKE` follow the column collation, case-insensitive by default, so `Code == code` and the name matches may accept strings the model rejects.
  - Ordering: the model orders names ordinally; `ORDER BY Name` follows the collation.
  - Null strings are not modelled except where the source tests for them (`IsNullOrEmpty`, nullable columns).
- Concurrency is not modelled: the async wrappers and the read-then-write race in `BuyProduct` are outside the sequential model.
- The `Include(p => p.Category)` navigation load is not modelled; rows carry only `CategoryId`.
- Identity values are modelled as `nextId`, incremented per insert; any id the caller sets on a new entity is ignored.
- `Products.OrderById`: sortedness and permutation only, which is all SQL `ORDER BY` promises; rows with equal keys may come back in any order. The same holds for every `OrderByName`.
- `CatalogProductRepository.ProductRepository.SearchProduct`: states which products are returned and how often, not their order, which SQL without `ORDER BY` leaves open. The model keeps table order (`Tables.WhereAppend`).
- `LegacyProductRepository.ProductRepository.SearchProduct`: likewise, which products and how often, not their order.
- `CatalogProductRepository.ProductRepository.GetProductsInCategory`: states which products and how often, not their order; the legacy copy likewise.
- `CatalogProductService.ProductService.GetProductsForCategoryAsync`: which products and how often, not their order, as the repository.
- `CatalogProductService.ProductService.SearchProductAsync`: which products and how often, not their order, as the repository.

## Findings

| source | as written | input that shows it | evidently intended | confidence | as-written member | corrected member |
|---|---|---|---|---|---|---|
| src/ApiExpanda.Infrastructure/Modules/Catalogos/Services/CompanyService.cs:69-79 | the code lookup `GetCompanyByCode` tracks the company it finds; `Update` of the newly mapped company with the same `Id` then throws, because EF cannot track two instances with one key | a stored company with id 1 and code "A", updated with id 1 and code "A" | a company may keep its own code: only another company holding the code is refused | medium, not executed | CatalogCompanyService.KeepingOwnCodeFailsAsWritten | CatalogCompanyService.KeepingOwnCodeSucceedsAsIntended |
