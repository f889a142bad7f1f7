/**
 * The relational store, as three tables kept in storage order, together with
 * the constraints the database enforces on writes: primary keys, the unique
 * username and email indexes, the column widths, and the IsActive column's
 * default. The junction table's key (the user/role pair) and its two foreign
 * keys are the model's own assumption about that table. A write that breaks
 * one of these is a fault, never a silent overwrite.
 */
module Store {
  import opened Common
  import opened Text
  import opened Entities

  datatype Store = Store(users: seq<User>, roles: seq<Role>, userRoles: seq<UserRole>)

  // Column widths of the Users table, in UTF-16 code units.
  const MaxIdLength: nat := 40
  const MaxUsernameLength: nat := 50
  const MaxEmailLength: nat := 255
  const MaxPasswordHashLength: nat := 255

  /** The message of the exception the ORM raises when a save is rejected. */
  const SaveFailedMessage: string :=
    "An error occurred while saving the entity changes. See the inner exception for details."

  /** The result of a write: the new state, or the fault the database raised. */
  datatype Saved<+T> = Saved(value: T) | DbFault(message: string)

  /** A service's answer together with the store it leaves behind. */
  datatype Reply<+T> = Reply(result: OperationResult<T>, store: Store)

  /** The index of the first element satisfying `f`, if any. */
  function FirstIndex<T>(xs: seq<T>, f: T -> bool): (r: Option<nat>)
    ensures r.Some? ==> r.value < |xs| && f(xs[r.value])
    ensures r.Some? ==> forall j :: 0 <= j < r.value ==> !f(xs[j])
    ensures r.None? <==> forall j :: 0 <= j < |xs| ==> !f(xs[j])
  {
    if |xs| == 0 then None
    else if f(xs[0]) then Some(0)
    else match FirstIndex(xs[1..], f)
      case None => None
      case Some(k) => Some(k + 1)
  }

  predicate HasUserId(s: Store, id: string) {
    exists u :: u in s.users && u.id == id
  }

  predicate HasRoleId(s: Store, id: string) {
    exists r :: r in s.roles && r.id == id
  }

  /** The junction holds the pair (userId, roleId). */
  predicate HasPair(s: Store, userId: string, roleId: string) {
    exists ur :: ur in s.userRoles && ur.userId == userId && ur.roleId == roleId
  }

  /** The junction seen as a set of pairs. */
  function Pairs(s: Store): set<(string, string)> {
    set ur | ur in s.userRoles :: (ur.userId, ur.roleId)
  }

  lemma PairsMeansHasPair(s: Store, userId: string, roleId: string)
    ensures (userId, roleId) in Pairs(s) <==> HasPair(s, userId, roleId)
  {
  }

  predicate FitsColumns(u: User) {
    && Utf16Length(u.id) <= MaxIdLength
    && Utf16Length(u.username) <= MaxUsernameLength
    && Utf16Length(u.email) <= MaxEmailLength
    && Utf16Length(u.passwordHash) <= MaxPasswordHashLength
  }

  /** The fields an update or a delete never touches: key, username, email, hash and creation time. */
  predicate SameIdentity(a: User, b: User) {
    a.id == b.id && a.username == b.username && a.email == b.email
    && a.passwordHash == b.passwordHash && a.createdAt == b.createdAt
  }

  /**
   * Rewriting rows without touching key, username, email or hash, and leaving
   * the other tables alone, keeps the schema invariant.
   */
  lemma SameIdentityKeepsWellFormed(s: Store, t: Store)
    requires WellFormed(s)
    requires |t.users| == |s.users|
    requires forall i :: 0 <= i < |s.users| ==> SameIdentity(t.users[i], s.users[i])
    requires t.roles == s.roles && t.userRoles == s.userRoles
    ensures WellFormed(t)
  {
    forall i, j | 0 <= i < j < |t.users|
      ensures t.users[i].id != t.users[j].id && t.users[i].username != t.users[j].username
      ensures t.users[i].email != t.users[j].email
    {
      assert SameIdentity(t.users[i], s.users[i]) && SameIdentity(t.users[j], s.users[j]);
    }
    forall u | u in t.users ensures FitsColumns(u) {
      var i :| 0 <= i < |t.users| && t.users[i] == u;
      assert SameIdentity(t.users[i], s.users[i]);
      assert s.users[i] in s.users;
    }
    forall x | HasUserId(s, x) ensures HasUserId(t, x) {
      var v :| v in s.users && v.id == x;
      var i :| 0 <= i < |s.users| && s.users[i] == v;
      assert SameIdentity(t.users[i], s.users[i]);
      assert t.users[i] in t.users;
    }
    forall ur | ur in t.userRoles ensures AssociationResolves(t, ur) {
      assert AssociationResolves(s, ur);
    }
  }

  /** `u` can be added next to `users` without breaking a key or a unique index. */
  predicate Clashes(users: seq<User>, u: User) {
    exists v :: v in users && (v.id == u.id || v.username == u.username || v.email == u.email)
  }

  /** `u` shares its username or email with a row under another key, so writing it over its own row breaks an index. */
  predicate ClashesWithOthers(users: seq<User>, u: User) {
    exists v :: v in users && v.id != u.id && (v.username == u.username || v.email == u.email)
  }

  /** Whether a row can be written depends only on its identity fields, not on its flag or timestamp. */
  lemma SameIdentitySameFaults(users: seq<User>, a: User, b: User)
    requires SameIdentity(a, b)
    ensures ClashesWithOthers(users, a) <==> ClashesWithOthers(users, b)
    ensures FitsColumns(a) <==> FitsColumns(b)
  {
  }

  predicate UniqueUsers(users: seq<User>) {
    forall i, j :: 0 <= i < j < |users| ==>
      users[i].id != users[j].id && users[i].username != users[j].username && users[i].email != users[j].email
  }

  predicate UniqueRoleIds(roles: seq<Role>) {
    forall i, j :: 0 <= i < j < |roles| ==> roles[i].id != roles[j].id
  }

  predicate UniquePairs(urs: seq<UserRole>) {
    forall i, j :: 0 <= i < j < |urs| ==> (urs[i].userId, urs[i].roleId) != (urs[j].userId, urs[j].roleId)
  }

  /** No two users share a username or an email, even ignoring case. */
  predicate UniqueIgnoringCase(users: seq<User>) {
    forall i, j :: 0 <= i < j < |users| ==>
      Lower(users[i].username) != Lower(users[j].username) && Lower(users[i].email) != Lower(users[j].email)
  }

  /**
   * Both foreign keys of an association resolve: its user and its role. The
   * assigner is a plain column: nothing ties it to a user row.
   */
  predicate AssociationResolves(s: Store, ur: UserRole) {
    && HasUserId(s, ur.userId)
    && HasRoleId(s, ur.roleId)
  }

  /** The invariant of the schema. */
  predicate WellFormed(s: Store) {
    && UniqueUsers(s.users)
    && (forall u :: u in s.users ==> FitsColumns(u))
    && UniqueRoleIds(s.roles)
    && UniquePairs(s.userRoles)
    && (forall ur :: ur in s.userRoles ==> AssociationResolves(s, ur))
  }

  /**
   * The row the database keeps for an inserted user. IsActive has a database
   * default of true, and the ORM sends no value for a flag equal to the CLR
   * default `false`, so the column default applies: every new row is active.
   */
  function WithColumnDefaults(u: User): (v: User)
    ensures v.isActive
    ensures SameIdentity(v, u) && v.createdAt == u.createdAt && v.updatedAt == u.updatedAt
    ensures u.isActive ==> v == u
  {
    u.(isActive := true)
  }

  /** Inserting a user row: rejected on a key, index or width violation; otherwise stored active. */
  function InsertUser(s: Store, u: User): (r: Saved<Store>)
    ensures r.DbFault? <==> Clashes(s.users, u) || !FitsColumns(u)
    ensures r.Saved? ==> r.value.users == s.users + [WithColumnDefaults(u)]
    ensures r.Saved? ==> r.value.users[|s.users|].isActive
    ensures r.Saved? ==> r.value.roles == s.roles && r.value.userRoles == s.userRoles
  {
    if Clashes(s.users, u) || !FitsColumns(u) then DbFault(SaveFailedMessage)
    else Saved(s.(users := s.users + [WithColumnDefaults(u)]))
  }

  lemma InsertUserPreservesWellFormed(s: Store, u: User)
    requires WellFormed(s)
    requires InsertUser(s, u).Saved?
    ensures WellFormed(InsertUser(s, u).value)
  {
    var t := InsertUser(s, u).value;
    forall i, j | 0 <= i < j < |t.users|
      ensures t.users[i].id != t.users[j].id && t.users[i].username != t.users[j].username
        && t.users[i].email != t.users[j].email
    {
      if j == |s.users| {
        assert t.users[i] in s.users;
      }
    }
    forall ur | ur in t.userRoles
      ensures AssociationResolves(t, ur)
    {
      assert AssociationResolves(s, ur);
      var a :| a in s.users && a.id == ur.userId;
      assert a in t.users;
    }
  }

  /** Inserting a junction row: rejected on a repeated pair or an unresolved foreign key. */
  function InsertUserRole(s: Store, ur: UserRole): (r: Saved<Store>)
    ensures r.DbFault? <==> HasPair(s, ur.userId, ur.roleId) || !AssociationResolves(s, ur)
    ensures r.Saved? ==> r.value.userRoles == s.userRoles + [ur]
    ensures r.Saved? ==> r.value.users == s.users && r.value.roles == s.roles
  {
    if HasPair(s, ur.userId, ur.roleId) || !AssociationResolves(s, ur) then DbFault(SaveFailedMessage)
    else Saved(s.(userRoles := s.userRoles + [ur]))
  }

  lemma InsertUserRolePreservesWellFormed(s: Store, ur: UserRole)
    requires WellFormed(s)
    requires InsertUserRole(s, ur).Saved?
    ensures WellFormed(InsertUserRole(s, ur).value)
    ensures Pairs(InsertUserRole(s, ur).value) == Pairs(s) + {(ur.userId, ur.roleId)}
  {
    var t := InsertUserRole(s, ur).value;
    forall i, j | 0 <= i < j < |t.userRoles|
      ensures (t.userRoles[i].userId, t.userRoles[i].roleId) != (t.userRoles[j].userId, t.userRoles[j].roleId)
    {
      if j == |s.userRoles| {
        assert t.userRoles[i] in s.userRoles;
      }
    }
    assert forall x :: x in t.userRoles <==> x in s.userRoles || x == ur;
  }
}
