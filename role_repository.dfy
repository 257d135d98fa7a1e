/** The catalogue's `RolesRepository`: the Roles table held in memory, its
    lookups, and the add/update/remove operations that change it. */
module CatalogRoleRepository {
  import opened Tables
  import opened Roles

  class RolesRepository {
    /** The rows of Roles, in store order. */
    var roles: seq<Role>
    /** The next value of the `Id` identity column. */
    var nextId: int

    ghost predicate Valid()
      reads this
    {
      TableValid(roles, nextId)
    }

    constructor ()
      ensures roles == [] && nextId == 1
      ensures Valid()
    {
      roles := [];
      nextId := 1;
    }

    /** `GetRoles`: every role, ordered by name. */
    function GetRoles(): (r: seq<Role>)
      reads this
      ensures Sorted(r, NameLeq) && multiset(r) == multiset(roles)
    {
      OrderByName(roles)
    }

    /** `GetRole(id)`: the row with that id, or null. */
    function GetRole(id: int): (r: Option<Role>)
      reads this
      ensures r.Some? ==> r.value in roles && r.value.id == id
      ensures r.None? <==> !HasId(roles, id)
    {
      match IndexOfKey(roles, RoleKey, id)
      case None => None
      case Some(i) => Some(roles[i])
    }

    /** `RoleExists(id)`. */
    function RoleExists(id: int): (r: bool)
      reads this
      ensures r <==> HasId(roles, id)
      ensures r <==> GetRole(id).Some?
    {
      Any(roles, (c: Role) => c.id == id)
    }

    /** `CreateRole`: stamps `CreatedAt` with `now`, lets the identity column
        assign the id, appends the row and saves. */
    method CreateRole(role: Role, now: int) returns (ok: bool, stored: Role)
      requires Valid()
      modifies this
      ensures stored == role.(id := old(nextId), createdAt := now)
      ensures roles == old(roles) + [stored] && nextId == old(nextId) + 1
      ensures ok && GetRole(stored.id) == Some(stored)
      ensures Valid()
    {
      stored := role.(createdAt := now);
      stored := stored.(id := nextId);
      AppendFreshKeepsUniqueKeys(roles, RoleKey, stored);
      roles := roles + [stored];
      nextId := nextId + 1;
      assert roles[|roles| - 1] == stored;
      ok := Save();
    }

    /** `UpdateRole`: stamps `UpdatedAt` with `now` and hands the row to EF's
        `Update`. A row whose id is unset (0) is tracked as new and inserted
        under the next identity value; otherwise the row with the same
        id is overwritten, keeping every other row, and the store refuses an
        id it does not hold. */
    method UpdateRole(role: Role, now: int) returns (r: Result<bool>)
      requires Valid()
      modifies this
      ensures var row := role.(updatedAt := Some(now));
              if role.id == 0 then
                && r == Ok(true)
                && roles == old(roles) + [row.(id := old(nextId))]
                && nextId == old(nextId) + 1
              else
                && nextId == old(nextId)
                && match ReplaceByKey(old(roles), RoleKey, row)
                   case None => r == Err(NoSuchRow) && roles == old(roles)
                   case Some(t) => r == Ok(true) && roles == t
      ensures r.Ok? <==> role.id == 0 || old(HasId(roles, role.id))
      ensures r.Ok? && role.id != 0 ==> GetRole(role.id) == Some(role.(updatedAt := Some(now)))
      ensures Valid()
    {
      var row := role.(updatedAt := Some(now));
      if role.id == 0 {
        var stored := row.(id := nextId);
        AppendFreshKeepsUniqueKeys(roles, RoleKey, stored);
        roles := roles + [stored];
        nextId := nextId + 1;
        var saved := Save();
        return Ok(saved);
      }
      var replaced := ReplaceByKey(roles, RoleKey, row);
      if replaced.None? {
        return Err(NoSuchRow);
      }
      ReplaceKeepsUniqueKeys(roles, RoleKey, row);
      roles := replaced.value;
      var saved := Save();
      r := Ok(saved);
    }

    /** `DeleteRole`: removes the row with the role's id and saves; the store
        refuses a row whose id it does not hold. */
    method DeleteRole(role: Role) returns (r: Result<bool>)
      requires Valid()
      modifies this
      ensures match RemoveByKey(old(roles), RoleKey, role.id)
              case None => r == Err(NoSuchRow) && roles == old(roles)
              case Some(t) => r == Ok(true) && roles == t
      ensures r.Ok? <==> old(HasId(roles, role.id))
      ensures r.Ok? ==> !HasId(roles, role.id) && |roles| == old(|roles|) - 1
      ensures nextId == old(nextId)
      ensures Valid()
    {
      var removed := RemoveByKey(roles, RoleKey, role.id);
      if removed.None? {
        return Err(NoSuchRow);
      }
      RemoveByKeyFacts(roles, RoleKey, role.id);
      roles := removed.value;
      var saved := Save();
      r := Ok(saved);
    }
  }
}
