/** The catalogue's `CompanyRepository`: the Company table held in memory,
    its lookups, and the add/update/remove operations that change it. */
module CatalogCompanyRepository {
  import opened Tables
  import opened Companies

  class CompanyRepository {
    /** The rows of Company, in store order. */
    var companies: seq<Company>
    /** The next value of the `Id` identity column. */
    var nextId: int

    ghost predicate Valid()
      reads this
    {
      TableValid(companies, nextId)
    }

    constructor ()
      ensures companies == [] && nextId == 1
      ensures Valid()
    {
      companies := [];
      nextId := 1;
    }

    /** `GetCompanies`: every company, ordered by name. */
    function GetCompanies(): (r: seq<Company>)
      reads this
      ensures Sorted(r, NameLeq) && multiset(r) == multiset(companies)
    {
      OrderByName(companies)
    }

    /** `GetCompany(id)`: the row with that id, or null. */
    function GetCompany(id: int): (r: Option<Company>)
      reads this
      ensures r.Some? ==> r.value in companies && r.value.id == id
      ensures r.None? <==> !HasId(companies, id)
    {
      match IndexOfKey(companies, CompanyKey, id)
      case None => None
      case Some(i) => Some(companies[i])
    }

    /** `GetCompanyByCode(code)`: the first row with exactly that code, or
        null. */
    function GetCompanyByCode(code: string): (r: Option<Company>)
      reads this
      ensures r.Some? ==> r.value in companies && r.value.code == code
      ensures r.Some? ==> exists i :: 0 <= i < |companies| && companies[i] == r.value && !HasCode(companies[..i], code)
      ensures r.None? <==> !HasCode(companies, code)
    {
      match FirstByCode(companies, code)
      case None => None
      case Some(i) => Some(companies[i])
    }

    /** `CompanyExists(id)`. */
    function CompanyExists(id: int): (r: bool)
      reads this
      ensures r <==> HasId(companies, id)
      ensures r <==> GetCompany(id).Some?
    {
      Any(companies, (c: Company) => c.id == id)
    }

    /** `CompanyExistsByCode(code)`. */
    function CompanyExistsByCode(code: string): (r: bool)
      reads this
      ensures r <==> HasCode(companies, code)
      ensures r <==> GetCompanyByCode(code).Some?
    {
      Any(companies, (c: Company) => c.code == code)
    }

    /** `CreateCompany`: stamps `CreateAt` with `now`, lets the identity
        column assign the id, appends the row and saves. `IsActive` has the
        database default `true`, so EF leaves a `false` out of the insert and
        reads the stored `true` back: every new company is active. */
    method CreateCompany(company: Company, now: int) returns (ok: bool, stored: Company)
      requires Valid()
      modifies this
      ensures stored == company.(id := old(nextId), createAt := now, isActive := true)
      ensures companies == old(companies) + [stored] && nextId == old(nextId) + 1
      ensures ok && GetCompany(stored.id) == Some(stored)
      ensures Valid()
    {
      stored := company.(createAt := now, isActive := true);
      stored := stored.(id := nextId);
      AppendFreshKeepsUniqueKeys(companies, CompanyKey, stored);
      companies := companies + [stored];
      nextId := nextId + 1;
      assert companies[|companies| - 1] == stored;
      ok := Save();
    }

    /** `UpdateCompany`: stamps `UpdateAt` with `now` and hands the row to EF's
        `Update`. A row whose id is unset (0) is tracked as new and inserted
        under the next identity value, which also takes the column default for `IsActive`; otherwise the row with the same
        id is overwritten, keeping every other row, and the store refuses an
        id it does not hold. */
    method UpdateCompany(company: Company, now: int) returns (r: Result<bool>)
      requires Valid()
      modifies this
      ensures var row := company.(updateAt := Some(now));
              if company.id == 0 then
                && r == Ok(true)
                && companies == old(companies) + [row.(id := old(nextId), isActive := true)]
                && nextId == old(nextId) + 1
              else
                && nextId == old(nextId)
                && match ReplaceByKey(old(companies), CompanyKey, row)
                   case None => r == Err(NoSuchRow) && companies == old(companies)
                   case Some(t) => r == Ok(true) && companies == t
      ensures r.Ok? <==> company.id == 0 || old(HasId(companies, company.id))
      ensures r.Ok? && company.id != 0 ==> GetCompany(company.id) == Some(company.(updateAt := Some(now)))
      ensures Valid()
    {
      var row := company.(updateAt := Some(now));
      if company.id == 0 {
        var stored := row.(id := nextId, isActive := true);
        AppendFreshKeepsUniqueKeys(companies, CompanyKey, stored);
        companies := companies + [stored];
        nextId := nextId + 1;
        var saved := Save();
        return Ok(saved);
      }
      var replaced := ReplaceByKey(companies, CompanyKey, row);
      if replaced.None? {
        return Err(NoSuchRow);
      }
      ReplaceKeepsUniqueKeys(companies, CompanyKey, row);
      companies := replaced.value;
      var saved := Save();
      r := Ok(saved);
    }

    /** `DeleteCompany`: removes the row with the company's id and saves;
        the store refuses a row whose id it does not hold. */
    method DeleteCompany(company: Company) returns (r: Result<bool>)
      requires Valid()
      modifies this
      ensures match RemoveByKey(old(companies), CompanyKey, company.id)
              case None => r == Err(NoSuchRow) && companies == old(companies)
              case Some(t) => r == Ok(true) && companies == t
      ensures r.Ok? <==> old(HasId(companies, company.id))
      ensures r.Ok? ==> !HasId(companies, company.id) && |companies| == old(|companies|) - 1
      ensures nextId == old(nextId)
      ensures Valid()
    {
      var removed := RemoveByKey(companies, CompanyKey, company.id);
      if removed.None? {
        return Err(NoSuchRow);
      }
      RemoveByKeyFacts(companies, CompanyKey, company.id);
      companies := removed.value;
      var saved := Save();
      r := Ok(saved);
    }
  }
}
