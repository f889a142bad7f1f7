/**
 * Data access for roles and the user-role junction: existence checks, the
 * roles of one user, assigning and removing an association, and the two role
 * reads (all roles by name, one role by exact name).
 */
module RoleRepository {
  import opened Common
  import opened Entities
  import opened Store
  import opened Sorting
  import UserRepository

  /** The role row with key `id` (the first, should keys ever repeat). */
  function RoleById(roles: seq<Role>, id: string): (r: Option<Role>)
    ensures r.Some? ==> r.value in roles && r.value.id == id
    ensures r.None? <==> forall x :: x in roles ==> x.id != id
  {
    match FirstIndex(roles, (x: Role) => x.id == id)
    case None => None
    case Some(k) => Some(roles[k])
  }

  /** With unique keys, the key lookup finds each row under its own key. */
  lemma RoleByIdFindsRow(roles: seq<Role>, x: Role)
    requires UniqueRoleIds(roles)
    requires x in roles
    ensures RoleById(roles, x.id) == Some(x)
  {
    var i :| 0 <= i < |roles| && roles[i] == x;
    var j := FirstIndex(roles, (y: Role) => y.id == x.id).value;
    assert j <= i;
  }

  /** The junction rows of `userId`, in storage order, each joined to its role. */
  function JoinRoles(urs: seq<UserRole>, roles: seq<Role>, userId: string): (r: seq<Role>)
    ensures |r| <= |urs|
    ensures forall x :: x in r ==> x in roles && exists ur :: ur in urs && ur.userId == userId && ur.roleId == x.id
    decreases |urs|
  {
    if |urs| == 0 then []
    else
      var rest := JoinRoles(urs[1..], roles, userId);
      assert forall ur :: ur in urs[1..] ==> ur in urs;
      if urs[0].userId == userId then
        match RoleById(roles, urs[0].roleId)
        case Some(role) => [role] + rest
        case None => rest
      else rest
  }

  lemma {:induction false} JoinRolesComplete(urs: seq<UserRole>, roles: seq<Role>, userId: string, x: Role)
    requires UniqueRoleIds(roles)
    requires x in roles
    requires exists ur :: ur in urs && ur.userId == userId && ur.roleId == x.id
    ensures x in JoinRoles(urs, roles, userId)
    decreases |urs|
  {
    if urs[0].userId == userId && urs[0].roleId == x.id {
      RoleByIdFindsRow(roles, x);
    } else {
      var ur :| ur in urs && ur.userId == userId && ur.roleId == x.id;
      assert ur in urs[1..];
      JoinRolesComplete(urs[1..], roles, userId, x);
    }
  }

  /** Without a repeated pair, no role is joined twice for the same user. */
  lemma {:induction false} JoinOnce(urs: seq<UserRole>, roles: seq<Role>, userId: string, x: Role)
    requires UniquePairs(urs)
    ensures multiset(JoinRoles(urs, roles, userId))[x] <= 1
    decreases |urs|
  {
    if |urs| > 0 {
      var tail := urs[1..];
      var rest := JoinRoles(tail, roles, userId);
      assert UniquePairs(tail) by {
        forall i, j | 0 <= i < j < |tail|
          ensures (tail[i].userId, tail[i].roleId) != (tail[j].userId, tail[j].roleId)
        {
          assert tail[i] == urs[i + 1] && tail[j] == urs[j + 1];
        }
      }
      if urs[0].userId == userId && urs[0].roleId == x.id {
        forall ur | ur in tail ensures !(ur.userId == userId && ur.roleId == x.id) {
          var j :| 0 <= j < |tail| && tail[j] == ur;
          assert tail[j] == urs[j + 1];
        }
        assert x !in rest;
      } else {
        JoinOnce(tail, roles, userId, x);
        if urs[0].userId == userId && RoleById(roles, urs[0].roleId).Some? {
          assert RoleById(roles, urs[0].roleId).value != x;
        }
      }
    }
  }

  /** `GetUserRolesAsync`: the roles the user's associations point at, in junction order. */
  function GetUserRoles(s: Store, userId: string): (r: seq<Role>)
    ensures |r| <= |s.userRoles|
    ensures forall x :: x in r ==> x in s.roles && HasPair(s, userId, x.id)
  {
    JoinRoles(s.userRoles, s.roles, userId)
  }

  /**
   * In a well-formed store, a role is listed for a user exactly when the pair
   * is associated, and then exactly once.
   */
  lemma GetUserRolesExact(s: Store, userId: string, x: Role)
    requires WellFormed(s)
    ensures x in GetUserRoles(s, userId) <==> x in s.roles && HasPair(s, userId, x.id)
    ensures multiset(GetUserRoles(s, userId))[x] == (if x in s.roles && HasPair(s, userId, x.id) then 1 else 0)
  {
    if x in s.roles && HasPair(s, userId, x.id) {
      JoinRolesComplete(s.userRoles, s.roles, userId, x);
    }
    JoinOnce(s.userRoles, s.roles, userId, x);
  }

  /** `UserExistsAsync`: any user row with this id, active or not. */
  function UserExists(s: Store, userId: string): (b: bool)
    ensures b <==> HasUserId(s, userId)
    ensures b == UserRepository.UserExists(s, userId)
  {
    UserRepository.UserExists(s, userId)
  }

  /** `RoleExistsAsync`: any role row with this id. */
  function RoleExists(s: Store, roleId: string): (b: bool)
    ensures b <==> HasRoleId(s, roleId)
    ensures b <==> RoleById(s.roles, roleId).Some?
  {
    RoleById(s.roles, roleId).Some?
  }

  /** The position of the first junction row holding the pair. */
  function PairIndex(urs: seq<UserRole>, userId: string, roleId: string): (r: Option<nat>)
    ensures r.Some? ==> r.value < |urs| && urs[r.value].userId == userId && urs[r.value].roleId == roleId
    ensures r.None? <==> forall j :: 0 <= j < |urs| ==> !(urs[j].userId == userId && urs[j].roleId == roleId)
  {
    FirstIndex(urs, (ur: UserRole) => ur.userId == userId && ur.roleId == roleId)
  }

  /** `UserHasRoleAsync`: whether the pair is associated. */
  function UserHasRole(s: Store, userId: string, roleId: string): (b: bool)
    ensures b <==> HasPair(s, userId, roleId)
    ensures b <==> (userId, roleId) in Pairs(s)
  {
    PairsMeansHasPair(s, userId, roleId);
    PairIndex(s.userRoles, userId, roleId).Some?
  }

  /**
   * `AssignRoleToUserAsync`: adds the association stamped with `now` and the
   * assigner, and reports the one row written. It checks nothing itself; a
   * repeated pair or a dangling reference is refused by the database.
   */
  function AssignRoleToUser(s: Store, userId: string, roleId: string, assignedBy: Option<string>, now: Time)
    : (r: Saved<(int, Store)>)
    ensures r.DbFault? <==> HasPair(s, userId, roleId) || !AssociationResolves(s, UserRole(userId, roleId, now, assignedBy))
    ensures r.Saved? ==> r.value.0 == 1
    ensures r.Saved? ==> r.value.1.userRoles == s.userRoles + [UserRole(userId, roleId, now, assignedBy)]
    ensures r.Saved? ==> r.value.1.users == s.users && r.value.1.roles == s.roles
    ensures r.Saved? ==> Pairs(r.value.1) == Pairs(s) + {(userId, roleId)}
  {
    var ur := UserRole(userId, roleId, now, assignedBy);
    match InsertUserRole(s, ur)
    case DbFault(msg) => DbFault(msg)
    case Saved(t) =>
      assert forall x :: x in t.userRoles <==> x in s.userRoles || x == ur;
      Saved((1, t))
  }

  /**
   * `RemoveRoleFromUserAsync`: deletes the first junction row holding the pair
   * and reports one row; when there is none, reports zero and changes nothing.
   */
  function RemoveRoleFromUser(s: Store, userId: string, roleId: string): (r: (int, Store))
    ensures !HasPair(s, userId, roleId) ==> r == (0, s)
    ensures HasPair(s, userId, roleId) ==> r.0 == 1 && |r.1.userRoles| == |s.userRoles| - 1
    ensures HasPair(s, userId, roleId) ==>
      exists k :: 0 <= k < |s.userRoles| && s.userRoles[k].userId == userId && s.userRoles[k].roleId == roleId
        && r.1.userRoles == s.userRoles[..k] + s.userRoles[k + 1..]
    ensures r.1.users == s.users && r.1.roles == s.roles
  {
    match PairIndex(s.userRoles, userId, roleId)
    case None => (0, s)
    case Some(k) => (1, s.(userRoles := s.userRoles[..k] + s.userRoles[k + 1..]))
  }

  /** Cutting row k out of a junction without repeated pairs drops exactly that row's pair. */
  lemma RemoveRowDropsPair(urs: seq<UserRole>, k: nat)
    requires k < |urs| && UniquePairs(urs)
    ensures UniquePairs(urs[..k] + urs[k + 1..])
    ensures forall x :: x in urs[..k] + urs[k + 1..] <==>
      x in urs && (x.userId, x.roleId) != (urs[k].userId, urs[k].roleId)
  {
    var t := urs[..k] + urs[k + 1..];
    assert forall i :: 0 <= i < |t| ==> t[i] == urs[if i < k then i else i + 1];
    forall i, j | 0 <= i < j < |t| ensures (t[i].userId, t[i].roleId) != (t[j].userId, t[j].roleId) {
      var a, b := if i < k then i else i + 1, if j < k then j else j + 1;
      assert t[i] == urs[a] && t[j] == urs[b] && a < b;
    }
    forall x | x in t ensures x in urs && (x.userId, x.roleId) != (urs[k].userId, urs[k].roleId) {
      var i :| 0 <= i < |t| && t[i] == x;
      var m := if i < k then i else i + 1;
      assert urs[m] == x;
    }
    forall x | x in urs && (x.userId, x.roleId) != (urs[k].userId, urs[k].roleId) ensures x in t {
      var i :| 0 <= i < |urs| && urs[i] == x;
      if i < k { assert t[i] == x; } else { assert t[i - 1] == x; }
    }
  }

  /** Cutting junction row k out of a well-formed store keeps the invariant and loses exactly its pair. */
  lemma CutRowKeepsWellFormed(s: Store, k: nat, t: Store)
    requires WellFormed(s) && k < |s.userRoles|
    requires t == s.(userRoles := s.userRoles[..k] + s.userRoles[k + 1..])
    ensures WellFormed(t)
    ensures Pairs(t) == Pairs(s) - {(s.userRoles[k].userId, s.userRoles[k].roleId)}
  {
    var gone := (s.userRoles[k].userId, s.userRoles[k].roleId);
    RemoveRowDropsPair(s.userRoles, k);
    forall ur | ur in t.userRoles ensures AssociationResolves(t, ur) {
      assert AssociationResolves(s, ur);
    }
    forall p | p in Pairs(t) ensures p in Pairs(s) && p != gone {
      var ur :| ur in t.userRoles && p == (ur.userId, ur.roleId);
    }
    forall p | p in Pairs(s) && p != gone ensures p in Pairs(t) {
      var ur :| ur in s.userRoles && p == (ur.userId, ur.roleId);
      assert ur in t.userRoles;
    }
  }

  /** Removing a junction row keeps the schema invariant and takes exactly that pair out of the relation. */
  lemma RemoveRoleFromUserExact(s: Store, userId: string, roleId: string)
    requires WellFormed(s)
    ensures WellFormed(RemoveRoleFromUser(s, userId, roleId).1)
    ensures Pairs(RemoveRoleFromUser(s, userId, roleId).1) == Pairs(s) - {(userId, roleId)}
  {
    PairsMeansHasPair(s, userId, roleId);
    if HasPair(s, userId, roleId) {
      var k := PairIndex(s.userRoles, userId, roleId).value;
      CutRowKeepsWellFormed(s, k, s.(userRoles := s.userRoles[..k] + s.userRoles[k + 1..]));
    }
  }

  /** `GetAllRolesAsync`: every stored role, each as often as stored, in ascending name order. */
  function GetAllRoles(s: Store): (r: seq<Role>)
    ensures ByName(r)
    ensures multiset(r) == multiset(s.roles)
  {
    SortByName(s.roles)
  }

  predicate FirstWithName(roles: seq<Role>, name: string, k: nat)
    requires k <= |roles|
  {
    forall j :: 0 <= j < k ==> roles[j].name != name
  }

  /** `GetRoleByNameAsync`: the first role whose name equals `name` exactly, or none. */
  function GetRoleByName(s: Store, name: string): (r: Option<Role>)
    ensures r.Some? ==> r.value in s.roles && r.value.name == name
    ensures r.Some? ==> exists k :: 0 <= k < |s.roles| && s.roles[k] == r.value && FirstWithName(s.roles, name, k)
    ensures r.None? <==> forall x :: x in s.roles ==> x.name != name
  {
    match FirstIndex(s.roles, (x: Role) => x.name == name)
    case None => None
    case Some(k) => Some(s.roles[k])
  }
}
