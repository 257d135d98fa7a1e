/** The Company table: the `Company` entity, lookups by id and by code, and
    the code-uniqueness rule the company service maintains. */
module Companies {
  import opened Tables
  import opened Text

  /** A row of Company. Dates are clock ticks; `Rfc` and `UpdateAt` are
      nullable. */
  datatype Company = Company(
    id: int,
    name: string,
    code: string,
    rfc: Option<string>,
    isActive: bool,
    createAt: int,
    updateAt: Option<int>)

  function CompanyKey(c: Company): int { c.id }

  /** `Id` is the primary key, drawn from the identity column, which starts
      at 1: every id lies between 1 and the next identity value. */
  ghost predicate TableValid(table: seq<Company>, nextId: int) {
    && UniqueKeys(table, CompanyKey)
    && nextId >= 1
    && forall i :: 0 <= i < |table| ==> 1 <= table[i].id < nextId
  }

  predicate HasId(table: seq<Company>, id: int) {
    exists i :: 0 <= i < |table| && table[i].id == id
  }

  predicate HasCode(table: seq<Company>, code: string) {
    exists i :: 0 <= i < |table| && table[i].code == code
  }

  /** `FirstOrDefault(c => c.Code == code)`: exact, ordinal comparison. */
  function FirstByCode(table: seq<Company>, code: string): (r: Option<nat>)
    ensures r.Some? ==> r.value < |table| && table[r.value].code == code
    ensures r.Some? ==> forall j :: 0 <= j < r.value ==> table[j].code != code
    ensures r.None? <==> !HasCode(table, code)
  {
    FirstWhere(table, (c: Company) => c.code == code)
  }

  function NameLeq(a: Company, b: Company): bool { StrLeq(a.name, b.name) }

  lemma NameLeqTotalPreorder()
    ensures TotalPreorder(NameLeq)
  {
    KeyedStrLeqTotalPreorder(NameLeq, (c: Company) => c.name);
  }

  /** `OrderBy(c => c.Name)`. */
  function OrderByName(table: seq<Company>): (r: seq<Company>)
    ensures Sorted(r, NameLeq) && multiset(r) == multiset(table) && |r| == |table|
  {
    NameLeqTotalPreorder();
    SortBy(table, NameLeq)
  }

  /** No two companies share a code. The EF configuration declares a unique
      index on `Code`; the service keeps it on create and update. */
  ghost predicate UniqueCodes(table: seq<Company>) {
    forall i, j :: 0 <= i < j < |table| ==> table[i].code != table[j].code
  }

  /** Under unique codes, the company a code finds is the only one with that
      code. */
  lemma FirstByCodeIsOnly(table: seq<Company>, code: string, j: nat)
    requires UniqueCodes(table) && j < |table| && table[j].code == code
    ensures FirstByCode(table, code) == Some(j)
  {
    var i := FirstByCode(table, code).value;
    if i != j {
      assert false;
    }
  }

  /** Inserting a company whose code no row has keeps codes unique. */
  lemma AppendFreshCodeKeepsCodesUnique(table: seq<Company>, c: Company)
    requires UniqueCodes(table) && !HasCode(table, c.code)
    ensures UniqueCodes(table + [c])
  {
    var t := table + [c];
    forall i, j | 0 <= i < j < |t| ensures t[i].code != t[j].code {
      if j == |table| {
        assert t[i] == table[i];
      }
    }
  }

  /** The update rule: the row replaced has the new row's id, and the code
      is either free or held by that same company. Then codes stay unique. */
  lemma ReplaceKeepsCodesUnique(table: seq<Company>, c: Company)
    requires UniqueKeys(table, CompanyKey) && UniqueCodes(table)
    requires ReplaceByKey(table, CompanyKey, c).Some?
    requires FirstByCode(table, c.code).None? || table[FirstByCode(table, c.code).value].id == c.id
    ensures UniqueCodes(ReplaceByKey(table, CompanyKey, c).value)
  {
    var k := IndexOfKey(table, CompanyKey, c.id).value;
    var t := ReplaceByKey(table, CompanyKey, c).value;
    forall i, j | 0 <= i < j < |t| ensures t[i].code != t[j].code {
      if i == k || j == k {
        var other := if i == k then j else i;
        if table[other].code == c.code {
          FirstByCodeIsOnly(table, c.code, other);
        }
      }
    }
  }
}
