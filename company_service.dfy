/** The catalogue's `CompanyService`: the code-uniqueness rule it enforces
    over the company repository and the messages it fails with. */
module CatalogCompanyService {
  import opened Tables
  import opened Companies
  import opened CatalogCompanyRepository

  const CompanyMissing := "La compañía no existe"

  function CodeTaken(code: string): string {
    "Ya existe una compañía con el código '" + code + "'"
  }

  function CodeHeldByOther(code: string): string {
    "Ya existe otra compañía con el código '" + code + "'"
  }

  /** `CreateCompanyDto`; `Rfc` is nullable. */
  datatype CreateCompanyDto = CreateCompanyDto(
    name: string,
    code: string,
    rfc: Option<string>,
    isActive: bool)

  /** `UpdateCompanyDto` carries the same fields as the create DTO. */
  type UpdateCompanyDto = CreateCompanyDto

  /** The Mapster map from the create DTO: `CreateAt` is now, `UpdateAt`
      null, the id left at 0 for the identity column. */
  function FromCreateDto(dto: CreateCompanyDto, now: int): (c: Company)
    ensures c.id == 0 && c.createAt == now && c.updateAt == None
    ensures c.name == dto.name && c.code == dto.code && c.rfc == dto.rfc && c.isActive == dto.isActive
  {
    Company(0, dto.name, dto.code, dto.rfc, dto.isActive, now, None)
  }

  /** The Mapster map from the update DTO: `UpdateAt` is now, and `CreateAt`,
      which the DTO does not carry, takes the entity's initial value, also
      now. */
  function FromUpdateDto(dto: UpdateCompanyDto, now: int): (c: Company)
    ensures c.id == 0 && c.createAt == now && c.updateAt == Some(now)
    ensures c.name == dto.name && c.code == dto.code && c.rfc == dto.rfc && c.isActive == dto.isActive
    ensures c == FromCreateDto(dto, now).(updateAt := Some(now))
  {
    Company(0, dto.name, dto.code, dto.rfc, dto.isActive, now, Some(now))
  }

  /** The company an update with this id and code collides with: the first
      company holding the code, when its id differs. */
  predicate CodeClash(table: seq<Company>, id: int, code: string): (r: bool)
    ensures r ==> exists j :: 0 <= j < |table| && table[j].code == code && table[j].id != id
    ensures !HasCode(table, code) ==> !r
  {
    var found := FirstByCode(table, code);
    found.Some? && table[found.value].id != id
  }

  /** When codes are unique, an update clashes exactly when some other
      company holds the code, so keeping one's own code never clashes. */
  lemma CodeClashIff(table: seq<Company>, id: int, code: string)
    requires UniqueCodes(table)
    ensures CodeClash(table, id, code) <==>
              exists j :: 0 <= j < |table| && table[j].code == code && table[j].id != id
  {
    if j :| 0 <= j < |table| && table[j].code == code && table[j].id != id {
      FirstByCodeIsOnly(table, code, j);
    }
  }

  /** Where `UpdateCompanyAsync`, as the source writes it, ends up. */
  datatype UpdateStep = UnknownCompany | CodeHeldElsewhere | SecondTrackedInstance | Replaced

  /** `UpdateCompanyAsync` as written, under EF change tracking: the lookup
      by code tracks the company it finds, and `Update` of the freshly mapped
      company throws when that tracked company has the same key, that is
      when the company keeps its own code. */
  function UpdateStepAsWritten(table: seq<Company>, id: int, code: string): (r: UpdateStep)
    ensures r == UnknownCompany <==> !HasId(table, id)
    ensures r == CodeHeldElsewhere <==> HasId(table, id) && CodeClash(table, id, code)
    ensures r == Replaced <==> HasId(table, id) && !HasCode(table, code)
  {
    if !HasId(table, id) then UnknownCompany
    else match FirstByCode(table, code)
      case None => Replaced
      case Some(i) => if table[i].id != id then CodeHeldElsewhere else SecondTrackedInstance
  }

  /** Updating a company without changing its code raises no code clash, so
      the service means to allow it, yet as written it fails with a second
      tracked instance of the same key. */
  lemma KeepingOwnCodeFailsAsWritten(table: seq<Company>, j: nat)
    requires UniqueCodes(table) && j < |table|
    ensures !CodeClash(table, table[j].id, table[j].code)
    ensures UpdateStepAsWritten(table, table[j].id, table[j].code) == SecondTrackedInstance
  {
    FirstByCodeIsOnly(table, table[j].code, j);
  }

  /** The update as intended, which `CompanyService.UpdateCompanyAsync`
      follows: only an unknown id or a code held by another company is
      refused. */
  function UpdateStepIntended(table: seq<Company>, id: int, code: string): (r: UpdateStep)
    ensures r != SecondTrackedInstance
    ensures r == UnknownCompany <==> !HasId(table, id)
    ensures r == CodeHeldElsewhere <==> HasId(table, id) && CodeClash(table, id, code)
    ensures !HasCode(table, code) ==> r == UpdateStepAsWritten(table, id, code)
  {
    if !HasId(table, id) then UnknownCompany
    else if CodeClash(table, id, code) then CodeHeldElsewhere
    else Replaced
  }

  /** As intended, a company may keep its own code. */
  lemma KeepingOwnCodeSucceedsAsIntended(table: seq<Company>, j: nat)
    requires UniqueCodes(table) && j < |table|
    ensures UpdateStepIntended(table, table[j].id, table[j].code) == Replaced
  {
    FirstByCodeIsOnly(table, table[j].code, j);
  }

  class CompanyService {
    const repository: CompanyRepository

    constructor (repository: CompanyRepository)
      ensures this.repository == repository
    {
      this.repository := repository;
    }

    ghost predicate Valid()
      reads repository
    {
      repository.Valid()
    }

    /** `GetAllCompaniesAsync`: every company, ordered by name. */
    function GetAllCompaniesAsync(): (r: seq<Company>)
      reads repository
      ensures Sorted(r, NameLeq) && multiset(r) == multiset(repository.companies)
    {
      repository.GetCompanies()
    }

    /** `GetCompanyByIdAsync`: the company with that id, or null. */
    function GetCompanyByIdAsync(id: int): (r: Option<Company>)
      reads repository
      ensures r.Some? ==> r.value in repository.companies && r.value.id == id
      ensures r.None? <==> !HasId(repository.companies, id)
    {
      repository.GetCompany(id)
    }

    /** `GetCompanyByCodeAsync`: the first company with exactly that code, or
        null. */
    function GetCompanyByCodeAsync(code: string): (r: Option<Company>)
      reads repository
      ensures r.Some? ==> r.value in repository.companies && r.value.code == code
      ensures r.Some? ==> exists i :: 0 <= i < |repository.companies| && repository.companies[i] == r.value
                                      && !HasCode(repository.companies[..i], code)
      ensures r.None? <==> !HasCode(repository.companies, code)
    {
      repository.GetCompanyByCode(code)
    }

    /** `CompanyExistsAsync`. */
    function CompanyExistsAsync(id: int): (r: bool)
      reads repository
      ensures r <==> HasId(repository.companies, id)
    {
      repository.CompanyExists(id)
    }

    /** `CompanyExistsByCodeAsync`. */
    function CompanyExistsByCodeAsync(code: string): (r: bool)
      reads repository
      ensures r <==> HasCode(repository.companies, code)
    {
      repository.CompanyExistsByCode(code)
    }

    /** `CreateCompanyAsync`: refuses a code some company already has,
        changing nothing; otherwise adds exactly one company, stamped with
        `now` and under the next id, after which the code exists. The company
        returned is active whatever the DTO asked, because the `IsActive`
        column defaults to `true`. Unique codes stay unique. */
    method CreateCompanyAsync(dto: CreateCompanyDto, now: int) returns (r: Result<Company>)
      requires Valid()
      modifies repository
      ensures Valid()
      ensures old(HasCode(repository.companies, dto.code)) ==>
                r == Err(CodeTaken(dto.code)) && unchanged(repository)
      ensures !old(HasCode(repository.companies, dto.code)) ==>
                && r == Ok(Company(old(repository.nextId), dto.name, dto.code, dto.rfc, true, now, None))
                && repository.companies == old(repository.companies) + [r.value]
                && HasCode(repository.companies, dto.code)
      ensures UniqueCodes(old(repository.companies)) ==> UniqueCodes(repository.companies)
    {
      if CompanyExistsByCodeAsync(dto.code) {
        return Err(CodeTaken(dto.code));
      }
      var company := FromCreateDto(dto, now);
      ghost var before := repository.companies;
      var created, stored := repository.CreateCompany(company, now);
      if UniqueCodes(before) {
        AppendFreshCodeKeepsCodesUnique(before, stored);
      }
      assert repository.companies[|repository.companies| - 1] == stored;
      r := Ok(stored);
    }

    /** `UpdateCompanyAsync`: refuses an unknown id, then a code held by a
        different company, changing nothing; otherwise overwrites the row
        under that id with the mapped DTO, which re-stamps both dates. Unique
        codes stay unique. */
    method UpdateCompanyAsync(id: int, dto: UpdateCompanyDto, now: int) returns (r: Result<bool>)
      requires Valid()
      modifies repository
      ensures Valid()
      ensures !old(HasId(repository.companies, id)) ==>
                r == Err(CompanyMissing) && unchanged(repository)
      ensures old(HasId(repository.companies, id)) && old(CodeClash(repository.companies, id, dto.code)) ==>
                r == Err(CodeHeldByOther(dto.code)) && unchanged(repository)
      ensures old(HasId(repository.companies, id)) && !old(CodeClash(repository.companies, id, dto.code)) ==>
                var row := Company(id, dto.name, dto.code, dto.rfc, dto.isActive, now, Some(now));
                && r == Ok(true)
                && ReplaceByKey(old(repository.companies), CompanyKey, row).Some?
                && repository.companies == ReplaceByKey(old(repository.companies), CompanyKey, row).value
                && repository.GetCompany(id) == Some(row)
      ensures r == Ok(true) <==> old(UpdateStepIntended(repository.companies, id, dto.code)) == Replaced
      ensures UniqueCodes(old(repository.companies)) ==> UniqueCodes(repository.companies)
    {
      if !CompanyExistsAsync(id) {
        return Err(CompanyMissing);
      }
      var existing := repository.GetCompanyByCode(dto.code);
      if existing.Some? && existing.value.id != id {
        return Err(CodeHeldByOther(dto.code));
      }
      var company := FromUpdateDto(dto, now);
      company := company.(id := id);
      ghost var before := repository.companies;
      if UniqueCodes(before) {
        ReplaceKeepsCodesUnique(before, company.(updateAt := Some(now)));
      }
      r := repository.UpdateCompany(company, now);
    }

    /** `DeleteCompanyAsync`: false, changing nothing, for an unknown id;
        otherwise removes exactly that company. */
    method DeleteCompanyAsync(id: int) returns (r: Result<bool>)
      requires Valid()
      modifies repository
      ensures Valid()
      ensures !old(HasId(repository.companies, id)) ==> r == Ok(false) && unchanged(repository)
      ensures old(HasId(repository.companies, id)) ==>
                && r == Ok(true)
                && RemoveByKey(old(repository.companies), CompanyKey, id).Some?
                && repository.companies == RemoveByKey(old(repository.companies), CompanyKey, id).value
                && !HasId(repository.companies, id)
    {
      var company := repository.GetCompany(id);
      if company.None? {
        return Ok(false);
      }
      r := repository.DeleteCompany(company.value);
    }
  }
}
