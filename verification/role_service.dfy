/**
 * The role service: the checked assignment ladder, removal, and the three
 * role reads, each answering with a result envelope and the store it leaves.
 */
module RoleService {
  import opened Common
  import opened Entities
  import opened Store
  import opened Sorting
  import RoleRepository

  const UserMissing: string := "使用者不存在"
  const RoleMissing: string := "角色不存在"
  const AlreadyAssigned: string := "使用者已經有此角色"
  const NotAssigned: string := "使用者沒有此角色"
  const AssignFailedPrefix: string := "指派角色失敗: "

  /** `GetUserRolesAsync`: always succeeds; a user without roles gets an empty list. */
  function GetUserRoles(s: Store, userId: string): (r: OperationResult<seq<Role>>)
    ensures r.Success? && r.code == StatusOk
    ensures forall x :: x in r.data ==> x in s.roles && HasPair(s, userId, x.id)
    ensures r.data == RoleRepository.GetUserRoles(s, userId)
  {
    Success(RoleRepository.GetUserRoles(s, userId))
  }

  /**
   * `AssignRoleToUserAsync`: an unknown user is a 404, then an unknown role is
   * a 404, then an existing pair is a 409; only then is the association
   * written, whoever the assigner is. A write the database refuses would
   * become a 500 carrying the fault's message; after those three checks the
   * modelled constraints leave none to refuse.
   */
  function Assign(s: Store, userId: string, roleId: string, assignedBy: Option<string>, now: Time)
    : (r: Reply<bool>)
    ensures !HasUserId(s, userId) ==> r == Reply(Failure(UserMissing, StatusNotFound), s)
    ensures HasUserId(s, userId) && !HasRoleId(s, roleId) ==> r == Reply(Failure(RoleMissing, StatusNotFound), s)
    ensures HasUserId(s, userId) && HasRoleId(s, roleId) && HasPair(s, userId, roleId) ==>
      r == Reply(Failure(AlreadyAssigned, StatusConflict), s)
    ensures r.result.Failure? ==> r.store == s
    ensures r.result.Failure? && r.result.code == StatusInternal ==>
      r.result.errorMessage == AssignFailedPrefix + SaveFailedMessage
    ensures r.result.Success? <==>
      HasUserId(s, userId) && HasRoleId(s, roleId) && !HasPair(s, userId, roleId)
    ensures r.result.Success? ==>
      && r.result == Success(true)
      && r.store.userRoles == s.userRoles + [UserRole(userId, roleId, now, assignedBy)]
      && r.store.users == s.users && r.store.roles == s.roles
      && Pairs(r.store) == Pairs(s) + {(userId, roleId)}
  {
    if !RoleRepository.UserExists(s, userId) then
      Reply(Failure(UserMissing, StatusNotFound), s)
    else if !RoleRepository.RoleExists(s, roleId) then
      Reply(Failure(RoleMissing, StatusNotFound), s)
    else if RoleRepository.UserHasRole(s, userId, roleId) then
      Reply(Failure(AlreadyAssigned, StatusConflict), s)
    else
      match RoleRepository.AssignRoleToUser(s, userId, roleId, assignedBy, now)
      case DbFault(msg) => Reply(Failure(AssignFailedPrefix + msg, StatusInternal), s)
      case Saved((_, t)) => Reply(Success(true), t)
  }

  /** `RemoveRoleFromUserAsync`: a 404 when the pair is not associated, otherwise it is removed. */
  function Remove(s: Store, userId: string, roleId: string): (r: Reply<bool>)
    ensures !HasPair(s, userId, roleId) ==> r == Reply(Failure(NotAssigned, StatusNotFound), s)
    ensures HasPair(s, userId, roleId) ==> r.result == Success(true)
    ensures HasPair(s, userId, roleId) ==> |r.store.userRoles| == |s.userRoles| - 1
    ensures r.store.users == s.users && r.store.roles == s.roles
  {
    if !RoleRepository.UserHasRole(s, userId, roleId) then
      Reply(Failure(NotAssigned, StatusNotFound), s)
    else
      Reply(Success(true), RoleRepository.RemoveRoleFromUser(s, userId, roleId).1)
  }

  /** `GetAllRolesAsync`: every stored role, each as often as stored, ordered by name. */
  function GetAllRoles(s: Store): (r: OperationResult<seq<Role>>)
    ensures r.Success? && r.code == StatusOk
    ensures ByName(r.data) && multiset(r.data) == multiset(s.roles)
  {
    Success(RoleRepository.GetAllRoles(s))
  }

  /** `GetRoleByNameAsync`: the role with exactly this name, or a 404. */
  function GetRoleByName(s: Store, name: string): (r: OperationResult<Role>)
    ensures r.Failure? <==> forall x :: x in s.roles ==> x.name != name
    ensures r.Failure? ==> r == Failure(RoleMissing, StatusNotFound)
    ensures r.Success? ==> r.code == StatusOk && r.data in s.roles && r.data.name == name
  {
    match RoleRepository.GetRoleByName(s, name)
    case None => Failure(RoleMissing, StatusNotFound)
    case Some(role) => Success(role)
  }

  // ---- The assignment relation over several calls ----

  /** A successful assignment keeps the schema invariant. */
  lemma AssignKeepsWellFormed(s: Store, userId: string, roleId: string, assignedBy: Option<string>, now: Time)
    requires WellFormed(s)
    ensures WellFormed(Assign(s, userId, roleId, assignedBy, now).store)
  {
    var r := Assign(s, userId, roleId, assignedBy, now);
    if r.result.Success? {
      InsertUserRolePreservesWellFormed(s, UserRole(userId, roleId, now, assignedBy));
    }
  }

  /** Removal keeps the schema invariant and takes exactly the named pair out of the relation. */
  lemma RemoveKeepsWellFormed(s: Store, userId: string, roleId: string)
    requires WellFormed(s)
    ensures WellFormed(Remove(s, userId, roleId).store)
    ensures Pairs(Remove(s, userId, roleId).store) == Pairs(s) - {(userId, roleId)}
  {
    RoleRepository.RemoveRoleFromUserExact(s, userId, roleId);
    PairsMeansHasPair(s, userId, roleId);
  }

  /** Assigning the same valid pair twice: the first call succeeds, the second is a 409 that changes nothing. */
  lemma AssignTwiceConflicts(s: Store, userId: string, roleId: string, assignedBy: Option<string>, t0: Time, t1: Time)
    requires Assign(s, userId, roleId, assignedBy, t0).result.Success?
    ensures var s1 := Assign(s, userId, roleId, assignedBy, t0).store;
      Assign(s1, userId, roleId, assignedBy, t1) == Reply(Failure(AlreadyAssigned, StatusConflict), s1)
  {
    var s1 := Assign(s, userId, roleId, assignedBy, t0).store;
    assert UserRole(userId, roleId, t0, assignedBy) in s1.userRoles;
    var u :| u in s.users && u.id == userId;
    var x :| x in s.roles && x.id == roleId;
    assert u in s1.users && x in s1.roles;
  }

  /** In a well-formed store, removing a pair twice: the first call succeeds, the second is a 404. */
  lemma RemoveTwiceNotFound(s: Store, userId: string, roleId: string)
    requires WellFormed(s)
    requires HasPair(s, userId, roleId)
    ensures Remove(s, userId, roleId).result == Success(true)
    ensures var s1 := Remove(s, userId, roleId).store;
      Remove(s1, userId, roleId) == Reply(Failure(NotAssigned, StatusNotFound), s1)
  {
    var s1 := Remove(s, userId, roleId).store;
    RemoveKeepsWellFormed(s, userId, roleId);
    PairsMeansHasPair(s1, userId, roleId);
  }

  /** In a well-formed store, assigning a new pair and removing it again restores the relation. */
  lemma AssignThenRemoveRestoresPairs(s: Store, userId: string, roleId: string, assignedBy: Option<string>, now: Time)
    requires WellFormed(s)
    requires Assign(s, userId, roleId, assignedBy, now).result.Success?
    ensures var s1 := Assign(s, userId, roleId, assignedBy, now).store;
      Remove(s1, userId, roleId).result == Success(true) && Pairs(Remove(s1, userId, roleId).store) == Pairs(s)
  {
    var s1 := Assign(s, userId, roleId, assignedBy, now).store;
    AssignKeepsWellFormed(s, userId, roleId, assignedBy, now);
    assert UserRole(userId, roleId, now, assignedBy) in s1.userRoles;
    RemoveKeepsWellFormed(s1, userId, roleId);
    PairsMeansHasPair(s, userId, roleId);
  }
}
