/** The catalogue's `RoleService`: plain create/read/update/delete over the
    roles repository, failing on an unknown id. */
module CatalogRoleService {
  import opened Tables
  import opened Roles
  import opened CatalogRoleRepository

  const RoleMissing := "El rol no existe"

  /** `CreateRoleDto`. */
  datatype CreateRoleDto = CreateRoleDto(name: string, description: string, isActive: bool)

  /** `UpdateRoleDto` carries the same fields as the create DTO. */
  type UpdateRoleDto = CreateRoleDto

  /** The Mapster map from the create DTO: `CreatedAt` is now, `UpdatedAt`
      null, the id left at 0 for the identity column. */
  function FromCreateDto(dto: CreateRoleDto, now: int): (r: Role)
    ensures r.id == 0 && r.createdAt == now && r.updatedAt == None
    ensures r.name == dto.name && r.description == dto.description && r.isActive == dto.isActive
  {
    Role(0, dto.name, dto.description, now, None, dto.isActive)
  }

  /** The Mapster map from the update DTO: `UpdatedAt` is now, and
      `CreatedAt`, which the DTO does not carry, takes the entity's initial
      value, also now. */
  function FromUpdateDto(dto: UpdateRoleDto, now: int): (r: Role)
    ensures r.id == 0 && r.createdAt == now && r.updatedAt == Some(now)
    ensures r.name == dto.name && r.description == dto.description && r.isActive == dto.isActive
    ensures r == FromCreateDto(dto, now).(updatedAt := Some(now))
  {
    Role(0, dto.name, dto.description, now, Some(now), dto.isActive)
  }

  class RoleService {
    const repository: RolesRepository

    constructor (repository: RolesRepository)
      ensures this.repository == repository
    {
      this.repository := repository;
    }

    ghost predicate Valid()
      reads repository
    {
      repository.Valid()
    }

    /** `GetAllRolesAsync`: every role, ordered by name. */
    function GetAllRolesAsync(): (r: seq<Role>)
      reads repository
      ensures Sorted(r, NameLeq) && multiset(r) == multiset(repository.roles)
    {
      repository.GetRoles()
    }

    /** `GetRoleByIdAsync`: the role with that id, or null. */
    function GetRoleByIdAsync(id: int): (r: Option<Role>)
      reads repository
      ensures r.Some? ==> r.value in repository.roles && r.value.id == id
      ensures r.None? <==> !HasId(repository.roles, id)
    {
      repository.GetRole(id)
    }

    /** `CreateRoleAsync`: always adds exactly one role under the next id,
        whatever names the table already holds. */
    method CreateRoleAsync(dto: CreateRoleDto, now: int) returns (role: Role)
      requires Valid()
      modifies repository
      ensures Valid()
      ensures role == Role(old(repository.nextId), dto.name, dto.description, now, None, dto.isActive)
      ensures repository.roles == old(repository.roles) + [role]
      ensures GetRoleByIdAsync(role.id) == Some(role)
    {
      var mapped := FromCreateDto(dto, now);
      var created;
      created, role := repository.CreateRole(mapped, now);
    }

    /** `UpdateRoleAsync`: fails "El rol no existe", changing nothing, for an
        unknown id; otherwise overwrites the row under that id with the
        mapped DTO, which re-stamps both dates. */
    method UpdateRoleAsync(id: int, dto: UpdateRoleDto, now: int) returns (r: Result<bool>)
      requires Valid()
      modifies repository
      ensures Valid()
      ensures !old(HasId(repository.roles, id)) ==> r == Err(RoleMissing) && unchanged(repository)
      ensures old(HasId(repository.roles, id)) ==>
                var row := Role(id, dto.name, dto.description, now, Some(now), dto.isActive);
                && r == Ok(true)
                && ReplaceByKey(old(repository.roles), RoleKey, row).Some?
                && repository.roles == ReplaceByKey(old(repository.roles), RoleKey, row).value
                && repository.GetRole(id) == Some(row)
    {
      if !repository.RoleExists(id) {
        return Err(RoleMissing);
      }
      var role := FromUpdateDto(dto, now);
      role := role.(id := id);
      r := repository.UpdateRole(role, now);
    }

    /** `DeleteRoleAsync`: fails "El rol no existe", changing nothing, for an
        unknown id, where the company and product services answer false;
        otherwise removes exactly that role. */
    method DeleteRoleAsync(id: int) returns (r: Result<bool>)
      requires Valid()
      modifies repository
      ensures Valid()
      ensures !old(HasId(repository.roles, id)) ==> r == Err(RoleMissing) && unchanged(repository)
      ensures old(HasId(repository.roles, id)) ==>
                && r == Ok(true)
                && RemoveByKey(old(repository.roles), RoleKey, id).Some?
                && repository.roles == RemoveByKey(old(repository.roles), RoleKey, id).value
                && !HasId(repository.roles, id)
    {
      var role := repository.GetRole(id);
      if role.None? {
        return Err(RoleMissing);
      }
      r := repository.DeleteRole(role.value);
    }

    /** `RoleExistsAsync`: whether `GetRole` finds the id. */
    function RoleExistsAsync(id: int): (r: bool)
      reads repository
      ensures r <==> HasId(repository.roles, id)
      ensures r <==> repository.RoleExists(id)
    {
      repository.GetRole(id) != None
    }
  }
}
