/**
 * The user service: the paged listing wrapped in a result envelope, lookup by
 * id, registration with its uniqueness checks, profile update and soft
 * delete. Every write returns the store it leaves behind.
 */
module UserService {
  import opened Common
  import opened Text
  import opened Entities
  import opened Store
  import opened Query
  import opened Mappings
  import opened Hashing
  import UserRepository

  const UserNotFound: string := "找不到使用者"
  const UsernameTaken: string := "使用者名稱已存在"
  const EmailTaken: string := "電子郵件已存在"
  const CreateFailed: string := "建立使用者失敗"
  const UpdateFailed: string := "更新使用者失敗"

  /** One page of the listing, echoing the paging it was asked for. */
  datatype PaginatedResult = PaginatedResult(items: seq<UserDto>, page: Int32, pageSize: int, totalCount: int)

  function ToDtos(users: seq<User>): (r: seq<UserDto>)
    ensures |r| == |users|
    ensures forall i :: 0 <= i < |users| ==> r[i] == ToDto(users[i])
  {
    seq(|users|, i requires 0 <= i < |users| => ToDto(users[i]))
  }

  /** The listing: the repository's page projected to DTOs, with the page, size and total echoed. */
  function GetUsers(s: Store, p: UserQueryParameters): (r: OperationResult<PaginatedResult>)
    ensures r.Success? && r.code == StatusOk
    ensures r.data.page == p.page && r.data.pageSize == p.pageSize
    ensures r.data.totalCount == |UserRepository.Ordered(s, FilterOf(p))|
    ensures |r.data.items| == |UserRepository.GetPaginatedUsers(s, p).items| <= MaxPageSize
    ensures forall i :: 0 <= i < |r.data.items| ==> r.data.items[i] == ToDto(UserRepository.GetPaginatedUsers(s, p).items[i])
  {
    var page := UserRepository.GetPaginatedUsers(s, p);
    Success(PaginatedResult(ToDtos(page.items), p.page, p.pageSize, page.totalCount))
  }

  function GetUserById(s: Store, id: string): (r: OperationResult<UserDto>)
    ensures r.Failure? <==> !HasUserId(s, id)
    ensures r.Failure? ==> r == Failure(UserNotFound, StatusNotFound)
    ensures r.Success? ==> r.code == StatusOk && exists u :: u in s.users && u.id == id && r.data == ToDto(u)
  {
    match UserRepository.GetUserById(s, id)
    case None => Failure(UserNotFound, StatusNotFound)
    case Some(u) => Success(ToDto(u))
  }

  /** Some stored username equals `name` ignoring case. */
  predicate UsernameInUse(s: Store, name: string) {
    exists u :: u in s.users && Lower(u.username) == Lower(name)
  }

  /** Some stored email equals `email` ignoring case. */
  predicate EmailInUse(s: Store, email: string) {
    exists u :: u in s.users && Lower(u.email) == Lower(email)
  }

  /** The row a successful registration stores: the request's fields under a fresh id, with the hashed password. */
  function NewUser(h: Hasher, dto: CreateUserDto, freshId: string, createdAt: Time, updatedAt: Time): (u: User)
    ensures u.id == freshId && u.username == dto.username && u.email == dto.email && u.isActive == dto.isActive
    ensures u.passwordHash == h.hash(dto.password)
    ensures u.createdAt == createdAt && u.updatedAt == updatedAt
  {
    ToEntity(dto, freshId, createdAt, updatedAt).(passwordHash := h.hash(dto.password))
  }

  /**
   * `CreateUserAsync`: refuses a taken username, then a taken email (both
   * ignoring case), then stores the new row with the password hashed. A
   * write the database refuses becomes a 500 and leaves the store as it was.
   */
  function Create(s: Store, h: Hasher, dto: CreateUserDto, freshId: string, createdAt: Time, updatedAt: Time)
    : (r: Reply<UserDto>)
    ensures UsernameInUse(s, dto.username) ==> r == Reply(Failure(UsernameTaken, StatusConflict), s)
    ensures !UsernameInUse(s, dto.username) && EmailInUse(s, dto.email) ==>
      r == Reply(Failure(EmailTaken, StatusConflict), s)
    ensures r.result.Failure? ==> r.store == s
    ensures r.result.Failure? && r.result.code == StatusInternal ==> r.result.errorMessage == CreateFailed
    ensures r.result.Success? <==>
      && !UsernameInUse(s, dto.username) && !EmailInUse(s, dto.email)
      && !Clashes(s.users, NewUser(h, dto, freshId, createdAt, updatedAt))
      && FitsColumns(NewUser(h, dto, freshId, createdAt, updatedAt))
    ensures r.result.Success? ==>
      && r.result.code == StatusCreated
      && r.store.users == s.users + [WithColumnDefaults(NewUser(h, dto, freshId, createdAt, updatedAt))]
      && r.store.roles == s.roles && r.store.userRoles == s.userRoles
      && r.result.data == ToDto(WithColumnDefaults(NewUser(h, dto, freshId, createdAt, updatedAt)))
      && r.result.data.isActive
  {
    if UserRepository.GetUserByUsername(s, dto.username).Some? then
      Reply(Failure(UsernameTaken, StatusConflict), s)
    else if UserRepository.GetUserByEmail(s, dto.email).Some? then
      Reply(Failure(EmailTaken, StatusConflict), s)
    else
      var u := NewUser(h, dto, freshId, createdAt, updatedAt);
      match UserRepository.CreateUser(s, u)
      case DbFault(_) => Reply(Failure(CreateFailed, StatusInternal), s)
      case Saved(t) => Reply(Success(ToDto(WithColumnDefaults(u)), StatusCreated), t)
  }

  /**
   * `UpdateUserAsync`: 404 for an unknown id; otherwise the row gets the new
   * active flag (when one is given) and a fresh timestamp, and nothing else
   * in the store changes. The write is refused, giving a 500, only when the
   * existing row already breaks an index or a width, which a well-formed
   * store rules out.
   */
  function Update(s: Store, id: string, dto: UpdateUserDto, now: Time): (r: Reply<UserDto>)
    ensures !HasUserId(s, id) ==> r == Reply(Failure(UserNotFound, StatusNotFound), s)
    ensures HasUserId(s, id) ==>
      var old_ := UserRepository.GetUserById(s, id).value;
      (r.result.Success? <==> FitsColumns(old_) && !ClashesWithOthers(s.users, old_))
    ensures HasUserId(s, id) && r.result.Failure? ==> r == Reply(Failure(UpdateFailed, StatusInternal), s)
    ensures r.result.Success? ==>
      var old_ := UserRepository.GetUserById(s, id).value;
      var new_ := old_.(isActive := if dto.isActive.Some? then dto.isActive.value else old_.isActive, updatedAt := now);
      && r.result.code == StatusOk
      && UserRepository.GetUserById(r.store, id) == Some(new_)
      && r.result.data == ToDto(new_)
    ensures |r.store.users| == |s.users|
    ensures forall i :: 0 <= i < |s.users| && s.users[i].id != id ==> r.store.users[i] == s.users[i]
    ensures forall i :: 0 <= i < |s.users| ==> SameIdentity(r.store.users[i], s.users[i])
    ensures r.store.roles == s.roles && r.store.userRoles == s.userRoles
  {
    match UserRepository.GetUserById(s, id)
    case None => Reply(Failure(UserNotFound, StatusNotFound), s)
    case Some(u) =>
      var v := UpdateEntity(dto, u, now);
      SameIdentitySameFaults(s.users, v, u);
      match UserRepository.UpdateUser(s, v)
      case DbFault(_) => Reply(Failure(UpdateFailed, StatusInternal), s)
      case Saved(t) =>
        assert t.users == s.users[UserRepository.UserIndex(s.users, id).value := v];
        Reply(Success(ToDto(v)), t)
  }

  /**
   * `DeleteUserAsync`: 404 for an unknown id; otherwise the user is
   * deactivated in place, whatever its flag was, and the call succeeds.
   */
  function Delete(s: Store, id: string, now: Time): (r: Reply<bool>)
    ensures !HasUserId(s, id) ==> r == Reply(Failure(UserNotFound, StatusNotFound), s)
    ensures HasUserId(s, id) ==> r.result == Success(true)
    ensures HasUserId(s, id) ==>
      var u := UserRepository.GetUserById(r.store, id);
      u.Some? && !u.value.isActive && u.value.updatedAt == now
      && u.value.(isActive := true, updatedAt := 0) == UserRepository.GetUserById(s, id).value.(isActive := true, updatedAt := 0)
    ensures |r.store.users| == |s.users|
    ensures forall i :: 0 <= i < |s.users| ==> SameIdentity(r.store.users[i], s.users[i])
    ensures r.store.roles == s.roles && r.store.userRoles == s.userRoles
  {
    match UserRepository.GetUserById(s, id)
    case None => Reply(Failure(UserNotFound, StatusNotFound), s)
    case Some(_) => Reply(Success(true), UserRepository.DeleteUser(s, id, now))
  }

  // ---- Invariants the service keeps ----

  /** Registration keeps usernames and emails unique ignoring case: the service checks what the index cannot. */
  lemma CreateKeepsUniqueIgnoringCase(s: Store, h: Hasher, dto: CreateUserDto, freshId: string, createdAt: Time, updatedAt: Time)
    requires UniqueIgnoringCase(s.users)
    ensures UniqueIgnoringCase(Create(s, h, dto, freshId, createdAt, updatedAt).store.users)
  {
    var r := Create(s, h, dto, freshId, createdAt, updatedAt);
    if r.result.Success? {
      var t := r.store.users;
      forall i, j | 0 <= i < j < |t|
        ensures Lower(t[i].username) != Lower(t[j].username) && Lower(t[i].email) != Lower(t[j].email)
      {
        if j == |s.users| {
          assert t[i] in s.users;
        }
      }
    }
  }

  /** Rows whose key, username and email are kept pairwise keep every uniqueness property. */
  lemma SameIdentityKeepsUniqueness(a: seq<User>, b: seq<User>)
    requires |a| == |b|
    requires forall i :: 0 <= i < |a| ==> SameIdentity(b[i], a[i])
    ensures UniqueIgnoringCase(a) ==> UniqueIgnoringCase(b)
    ensures UniqueUsers(a) ==> UniqueUsers(b)
  {
  }

  /** Every write of the service keeps the schema invariant and the case-insensitive uniqueness. */
  lemma WritesKeepInvariants(s: Store, h: Hasher, dto: CreateUserDto, upd: UpdateUserDto,
                             id: string, freshId: string, t0: Time, t1: Time)
    requires WellFormed(s) && UniqueIgnoringCase(s.users)
    ensures var t := Create(s, h, dto, freshId, t0, t1).store; WellFormed(t) && UniqueIgnoringCase(t.users)
    ensures var t := Update(s, id, upd, t0).store; WellFormed(t) && UniqueIgnoringCase(t.users)
    ensures var t := Delete(s, id, t0).store; WellFormed(t) && UniqueIgnoringCase(t.users)
  {
    var c := Create(s, h, dto, freshId, t0, t1);
    if c.result.Success? {
      InsertUserPreservesWellFormed(s, NewUser(h, dto, freshId, t0, t1));
    }
    CreateKeepsUniqueIgnoringCase(s, h, dto, freshId, t0, t1);
    var u := Update(s, id, upd, t0).store;
    SameIdentityKeepsUniqueness(s.users, u.users);
    UpdateKeepsWellFormed(s, id, upd, t0);
    var d := Delete(s, id, t0).store;
    SameIdentityKeepsUniqueness(s.users, d.users);
    UserRepository.DeleteUserPreservesWellFormed(s, id, t0);
  }

  /** In a store that keeps the schema invariant, updating an existing user always succeeds. */
  lemma UpdateOfExistingUserSucceeds(s: Store, id: string, dto: UpdateUserDto, now: Time)
    requires WellFormed(s)
    requires HasUserId(s, id)
    ensures Update(s, id, dto, now).result.Success?
  {
    var u := UserRepository.GetUserById(s, id).value;
    var k :| 0 <= k < |s.users| && s.users[k] == u;
    assert FitsColumns(u);
    forall v | v in s.users && v.id != u.id
      ensures v.username != u.username && v.email != u.email
    {
      var j :| 0 <= j < |s.users| && s.users[j] == v;
      assert j != k;
    }
  }

  lemma UpdateKeepsWellFormed(s: Store, id: string, dto: UpdateUserDto, now: Time)
    requires WellFormed(s)
    ensures WellFormed(Update(s, id, dto, now).store)
  {
    SameIdentityKeepsWellFormed(s, Update(s, id, dto, now).store);
  }
}
