/**
 * The persisted entities (users, roles and the user-role association) and the
 * data-transfer shapes the services exchange with their callers.
 */
module Entities {
  import opened Common

  /** A user account. `passwordHash` never leaves the service layer. */
  datatype User = User(
    id: string,
    username: string,
    email: string,
    passwordHash: string,
    isActive: bool,
    createdAt: Time,
    updatedAt: Time)

  /** A role; roles are seeded out of band and only read here. */
  datatype Role = Role(
    id: string,
    name: string,
    description: Option<string>,
    createdAt: Time,
    updatedAt: Time)

  /** One row of the user-role junction; its key is the pair (userId, roleId). */
  datatype UserRole = UserRole(
    userId: string,
    roleId: string,
    assignedAt: Time,
    assignedBy: Option<string>)

  /** The outward projection of a user: every field except the password hash. */
  datatype UserDto = UserDto(
    id: string,
    username: string,
    email: string,
    isActive: bool,
    createdAt: Time,
    updatedAt: Time)

  /** A registration request; `isActive` defaults to true. */
  datatype CreateUserDto = CreateUserDto(
    username: string,
    email: string,
    password: string,
    isActive: bool := true)

  /** A profile update; the active flag is the only mutable field. */
  datatype UpdateUserDto = UpdateUserDto(isActive: Option<bool>)

  datatype RoleDto = RoleDto(id: string, name: string, description: Option<string>)
}
