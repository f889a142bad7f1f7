/**
 * Conversions between user entities and their transfer shapes. Fresh ids and
 * clock readings are parameters: each `DateTime.UtcNow` is a separate reading.
 */
module Mappings {
  import opened Common
  import opened Entities

  /** Two users look the same from outside exactly when they differ at most in their password hash. */
  predicate SameExceptHash(a: User, b: User) {
    a.(passwordHash := "") == b.(passwordHash := "")
  }

  function ToDto(u: User): (d: UserDto)
    ensures d.id == u.id && d.username == u.username && d.email == u.email
    ensures d.isActive == u.isActive && d.createdAt == u.createdAt && d.updatedAt == u.updatedAt
  {
    UserDto(u.id, u.username, u.email, u.isActive, u.createdAt, u.updatedAt)
  }

  /** The projection forgets the hash and nothing else. */
  lemma ToDtoHidesOnlyHash(a: User, b: User)
    ensures ToDto(a) == ToDto(b) <==> SameExceptHash(a, b)
  {
    if ToDto(a) == ToDto(b) {
      assert a.(passwordHash := "") == b.(passwordHash := "");
    }
  }

  /**
   * Builds the entity for a registration request. The password is copied
   * verbatim into `passwordHash`; the caller must overwrite it.
   */
  function ToEntity(dto: CreateUserDto, freshId: string, createdAt: Time, updatedAt: Time): (u: User)
    ensures u.id == freshId
    ensures u.username == dto.username && u.email == dto.email && u.isActive == dto.isActive
    ensures u.passwordHash == dto.password
    ensures u.createdAt == createdAt && u.updatedAt == updatedAt
  {
    User(freshId, dto.username, dto.email, dto.password, dto.isActive, createdAt, updatedAt)
  }

  /** Applies a profile update: the flag only when one is given, the timestamp always. */
  function UpdateEntity(dto: UpdateUserDto, u: User, now: Time): (v: User)
    ensures v.isActive == (if dto.isActive.Some? then dto.isActive.value else u.isActive)
    ensures v.updatedAt == now
    ensures v.id == u.id && v.username == u.username && v.email == u.email
    ensures v.passwordHash == u.passwordHash && v.createdAt == u.createdAt
  {
    match dto.isActive
    case Some(flag) => u.(isActive := flag, updatedAt := now)
    case None => u.(updatedAt := now)
  }

  /** An update without a flag only touches the timestamp; applying the same update twice is one update. */
  lemma UpdateEntityIdempotent(dto: UpdateUserDto, u: User, now: Time)
    ensures UpdateEntity(dto, UpdateEntity(dto, u, now), now) == UpdateEntity(dto, u, now)
    ensures dto.isActive.None? ==> UpdateEntity(dto, u, now) == u.(updatedAt := now)
  {
  }
}
