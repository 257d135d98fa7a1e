/** The Roles table: the `Roles` entity and its lookups. */
module Roles {
  import opened Tables
  import opened Text

  /** A row of Roles. Dates are clock ticks; `UpdatedAt` is nullable. */
  datatype Role = Role(
    id: int,
    name: string,
    description: string,
    createdAt: int,
    updatedAt: Option<int>,
    isActive: bool)

  function RoleKey(r: Role): int { r.id }

  /** `Id` is the primary key, drawn from the identity column, which starts
      at 1: every id lies between 1 and the next identity value. */
  ghost predicate TableValid(table: seq<Role>, nextId: int) {
    && UniqueKeys(table, RoleKey)
    && nextId >= 1
    && forall i :: 0 <= i < |table| ==> 1 <= table[i].id < nextId
  }

  predicate HasId(table: seq<Role>, id: int) {
    exists i :: 0 <= i < |table| && table[i].id == id
  }

  function NameLeq(a: Role, b: Role): bool { StrLeq(a.name, b.name) }

  lemma NameLeqTotalPreorder()
    ensures TotalPreorder(NameLeq)
  {
    KeyedStrLeqTotalPreorder(NameLeq, (r: Role) => r.name);
  }

  /** `OrderBy(r => r.Name)`. */
  function OrderByName(table: seq<Role>): (r: seq<Role>)
    ensures Sorted(r, NameLeq) && multiset(r) == multiset(table) && |r| == |table|
  {
    NameLeqTotalPreorder();
    SortBy(table, NameLeq)
  }
}
