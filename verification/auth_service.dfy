/**
 * The authentication decisions: checking credentials without revealing which
 * check failed, the claim list a token carries, and resolving the current
 * user from the claims of an authenticated request. Signing, the clock and
 * the token id are parameters.
 */
module AuthService {
  import opened Common
  import opened Entities
  import opened Store
  import opened Text
  import opened Hashing
  import UserRepository
  import RoleRepository

  const InvalidCredentials: string := "無效的憑證"
  const AuthFailedPrefix: string := "認證失敗: "
  const NotAuthenticated: string := "使用者未認證"
  const InvalidIdentity: string := "無效的認證資訊"
  const UserMissing: string := "使用者不存在"

  /** The claim types a token carries: the registered `sub`, `email` and `jti`, and the framework's name-identifier and role. */
  datatype ClaimType = Sub | Email | Jti | NameIdentifier | RoleClaim

  datatype Claim = Claim(kind: ClaimType, value: string)

  /** The user projection returned on login. */
  datatype UserInfo = UserInfo(id: string, email: string, roles: seq<RoleDto>)

  datatype AuthResponse = AuthResponse(token: string, user: UserInfo, expiresAt: Time)

  /** The identity of an inbound request, when the request has one. */
  datatype Principal = Principal(isAuthenticated: bool, claims: seq<Claim>)

  /** One role claim per role, in the order given. */
  function RoleClaims(roles: seq<Role>): (cs: seq<Claim>)
    ensures |cs| == |roles|
    ensures forall i :: 0 <= i < |roles| ==> cs[i] == Claim(RoleClaim, roles[i].name)
  {
    seq(|roles|, i requires 0 <= i < |roles| => Claim(RoleClaim, roles[i].name))
  }

  /**
   * `GenerateJwtToken`'s claim list: subject, email, token id and name
   * identifier, then one role claim per role name. A null role list adds none.
   */
  function BuildClaims(u: User, roles: Option<seq<Role>>, jti: string): (cs: seq<Claim>)
    ensures |cs| == 4 + (if roles.Some? then |roles.value| else 0)
    ensures cs[..4] == [Claim(Sub, u.id), Claim(Email, u.email), Claim(Jti, jti), Claim(NameIdentifier, u.id)]
    ensures roles.Some? ==> forall i :: 0 <= i < |roles.value| ==> cs[4 + i] == Claim(RoleClaim, roles.value[i].name)
  {
    var base := [Claim(Sub, u.id), Claim(Email, u.email), Claim(Jti, jti), Claim(NameIdentifier, u.id)];
    match roles
    case None => base
    case Some(rs) => base + RoleClaims(rs)
  }

  /** `FindFirst`: the value of the first claim of the given type. */
  function FindFirst(cs: seq<Claim>, kind: ClaimType): (r: Option<string>)
    ensures r.Some? ==> exists i :: 0 <= i < |cs| && cs[i] == Claim(kind, r.value) && NoneBefore(cs, kind, i)
    ensures r.None? <==> forall i :: 0 <= i < |cs| ==> cs[i].kind != kind
  {
    match FirstIndex(cs, (c: Claim) => c.kind == kind)
    case None => None
    case Some(k) => Some(cs[k].value)
  }

  predicate NoneBefore(cs: seq<Claim>, kind: ClaimType, i: nat)
    requires i <= |cs|
  {
    forall j :: 0 <= j < i ==> cs[j].kind != kind
  }

  /** The role names a claim list carries, in order. */
  function RolesOf(cs: seq<Claim>): (names: seq<string>)
    ensures |names| <= |cs|
  {
    if |cs| == 0 then []
    else if cs[0].kind == RoleClaim then [cs[0].value] + RolesOf(cs[1..])
    else RolesOf(cs[1..])
  }

  function Names(roles: seq<Role>): (r: seq<string>)
    ensures |r| == |roles|
    ensures forall i :: 0 <= i < |roles| ==> r[i] == roles[i].name
  {
    seq(|roles|, i requires 0 <= i < |roles| => roles[i].name)
  }

  lemma {:induction false} RolesOfRoleClaims(roles: seq<Role>)
    ensures RolesOf(RoleClaims(roles)) == Names(roles)
    decreases |roles|
  {
    if |roles| > 0 {
      assert RoleClaims(roles)[1..] == RoleClaims(roles[1..]);
      RolesOfRoleClaims(roles[1..]);
    }
  }

  /** The first claim of a type is found at the first position holding that type. */
  lemma FindFirstAt(cs: seq<Claim>, kind: ClaimType, k: nat)
    requires k < |cs| && cs[k].kind == kind
    requires NoneBefore(cs, kind, k)
    ensures FindFirst(cs, kind) == Some(cs[k].value)
  {
    var r := FindFirst(cs, kind);
    var i :| 0 <= i < |cs| && cs[i] == Claim(kind, r.value) && NoneBefore(cs, kind, i);
    assert !(i < k) by { assert cs[i].kind == kind; }
    assert !(k < i) by { assert cs[k].kind == kind; }
  }

  /** The role claims follow the four base claims, so the roles read back are the role names. */
  lemma {:induction false} RolesOfBuildClaims(u: User, roles: Option<seq<Role>>, jti: string)
    ensures RolesOf(BuildClaims(u, roles, jti)) == (if roles.Some? then Names(roles.value) else [])
  {
    var cs := BuildClaims(u, roles, jti);
    var rs := if roles.Some? then roles.value else [];
    assert cs == [Claim(Sub, u.id), Claim(Email, u.email), Claim(Jti, jti), Claim(NameIdentifier, u.id)] + RoleClaims(rs);
    assert RolesOf(cs) == RolesOf(cs[1..]);
    assert RolesOf(cs[1..]) == RolesOf(cs[2..]) by { assert cs[1..][1..] == cs[2..]; }
    assert RolesOf(cs[2..]) == RolesOf(cs[3..]) by { assert cs[2..][1..] == cs[3..]; }
    assert RolesOf(cs[3..]) == RolesOf(cs[4..]) by { assert cs[3..][1..] == cs[4..]; }
    assert cs[4..] == RoleClaims(rs);
    RolesOfRoleClaims(rs);
  }

  /**
   * Reading the claims back: the token names the user by its id and lists
   * exactly the role names, in order.
   */
  lemma ClaimsDecode(u: User, roles: Option<seq<Role>>, jti: string)
    ensures var cs := BuildClaims(u, roles, jti);
      && FindFirst(cs, NameIdentifier) == Some(u.id)
      && FindFirst(cs, Sub) == Some(u.id)
      && FindFirst(cs, Email) == Some(u.email)
      && RolesOf(cs) == (if roles.Some? then Names(roles.value) else [])
  {
    var cs := BuildClaims(u, roles, jti);
    var base := cs[..4];
    assert base == [Claim(Sub, u.id), Claim(Email, u.email), Claim(Jti, jti), Claim(NameIdentifier, u.id)];
    assert cs[0] == base[0] && cs[1] == base[1] && cs[2] == base[2] && cs[3] == base[3];
    FindFirstAt(cs, Sub, 0);
    FindFirstAt(cs, Email, 1);
    FindFirstAt(cs, NameIdentifier, 3);
    RolesOfBuildClaims(u, roles, jti);
  }

  function ToRoleDto(r: Role): (d: RoleDto)
    ensures d.id == r.id && d.name == r.name && d.description == r.description
  {
    RoleDto(r.id, r.name, r.description)
  }

  function ToRoleDtos(roles: seq<Role>): (r: seq<RoleDto>)
    ensures |r| == |roles|
    ensures forall i :: 0 <= i < |roles| ==> r[i] == ToRoleDto(roles[i])
  {
    seq(|roles|, i requires 0 <= i < |roles| => ToRoleDto(roles[i]))
  }

  /**
   * `AuthenticateAsync`: an unknown or inactive email and a wrong password
   * give the same 401; a verifier fault is a 500 carrying its message. On
   * success the token signs the user's claims, the user info mirrors the
   * user and its roles, and the expiry is `hours` after `now`.
   */
  function Authenticate(s: Store, h: Hasher, sign: seq<Claim> -> string, email: string, password: string,
                        jti: string, now: Time, hours: int)
    : (r: OperationResult<AuthResponse>)
    ensures UserRepository.GetActiveUserByEmail(s, email).None? ==> r == Failure(InvalidCredentials, StatusUnauthorized)
    ensures UserRepository.GetActiveUserByEmail(s, email).Some? ==>
      var u := UserRepository.GetActiveUserByEmail(s, email).value;
      match h.verify(password, u.passwordHash)
      case Verified(false) => r == Failure(InvalidCredentials, StatusUnauthorized)
      case VerifyFault(msg) => r == Failure(AuthFailedPrefix + msg, StatusInternal)
      case Verified(true) =>
        var roles := RoleRepository.GetUserRoles(s, u.id);
        && r.Success? && r.code == StatusOk
        && r.data.token == sign(BuildClaims(u, Some(roles), jti))
        && r.data.user.id == u.id && r.data.user.email == u.email
        && |r.data.user.roles| == |roles|
        && (forall i :: 0 <= i < |roles| ==> r.data.user.roles[i] == ToRoleDto(roles[i]))
        && r.data.expiresAt == now + hours * TicksPerHour
  {
    match UserRepository.GetActiveUserByEmail(s, email)
    case None => Failure(InvalidCredentials, StatusUnauthorized)
    case Some(u) =>
      match h.verify(password, u.passwordHash)
      case VerifyFault(msg) => Failure(AuthFailedPrefix + msg, StatusInternal)
      case Verified(ok) =>
        if !ok then Failure(InvalidCredentials, StatusUnauthorized)
        else
          var roles := RoleRepository.GetUserRoles(s, u.id);
          var token := sign(BuildClaims(u, Some(roles), jti));
          Success(AuthResponse(token, UserInfo(u.id, u.email, ToRoleDtos(roles)), now + hours * TicksPerHour))
  }

  /**
   * A caller cannot tell an unknown email from a wrong password: every
   * refusal of credentials is the same value, and a sound hasher always
   * accepts the password of an active account.
   */
  lemma CredentialRefusalsIndistinguishable(s: Store, h: Hasher, sign: seq<Claim> -> string,
                                            e1: string, p1: string, e2: string, p2: string,
                                            jti: string, now: Time, hours: int)
    requires Authenticate(s, h, sign, e1, p1, jti, now, hours).code == StatusUnauthorized
    requires Authenticate(s, h, sign, e2, p2, jti, now, hours).code == StatusUnauthorized
    ensures Authenticate(s, h, sign, e1, p1, jti, now, hours) == Authenticate(s, h, sign, e2, p2, jti, now, hours)
  {
  }

  /** With a sound hasher, the owner of an active account who knows its password is let in. */
  lemma SoundHasherAdmitsOwner(s: Store, h: Hasher, sign: seq<Claim> -> string, u: User, password: string,
                               jti: string, now: Time, hours: int)
    requires SoundHasher(h)
    requires UniqueIgnoringCase(s.users)
    requires u in s.users && u.isActive && u.passwordHash == h.hash(password)
    ensures var r := Authenticate(s, h, sign, u.email, password, jti, now, hours);
      r.Success? && r.data.user.id == u.id
  {
    var v := UserRepository.GetActiveUserByEmail(s, u.email).value;
    var i :| 0 <= i < |s.users| && s.users[i] == u;
    var j :| 0 <= j < |s.users| && s.users[j] == v;
  }

  /**
   * `GetCurrentUserAsync`: no authenticated identity is a 401, a missing or
   * empty name identifier is another 401, and an id with no active user is
   * a 404; otherwise the user is returned.
   */
  function GetCurrentUser(s: Store, ctx: Option<Principal>): (r: OperationResult<User>)
    ensures ctx.None? || !ctx.value.isAuthenticated ==> r == Failure(NotAuthenticated, StatusUnauthorized)
    ensures ctx.Some? && ctx.value.isAuthenticated ==>
      var id := FindFirst(ctx.value.claims, NameIdentifier);
      && (id.None? || id.value == "" ==> r == Failure(InvalidIdentity, StatusUnauthorized))
      && (id.Some? && id.value != "" ==>
            if exists u :: u in s.users && u.id == id.value && u.isActive
            then r.Success? && r.code == StatusOk && r.data in s.users && r.data.id == id.value && r.data.isActive
            else r == Failure(UserMissing, StatusNotFound))
  {
    if ctx.None? || !ctx.value.isAuthenticated then Failure(NotAuthenticated, StatusUnauthorized)
    else match FindFirst(ctx.value.claims, NameIdentifier)
      case None => Failure(InvalidIdentity, StatusUnauthorized)
      case Some(id) =>
        if id == "" then Failure(InvalidIdentity, StatusUnauthorized)
        else match UserRepository.GetActiveUserById(s, id)
          case None => Failure(UserMissing, StatusNotFound)
          case Some(u) => Success(u)
  }

  /**
   * The round trip: a request carrying the claims issued to an active user of
   * a store with unique keys resolves to that very user.
   */
  lemma IssuedClaimsResolveToUser(s: Store, u: User, roles: Option<seq<Role>>, jti: string)
    requires UniqueUsers(s.users)
    requires u in s.users && u.isActive && u.id != ""
    ensures GetCurrentUser(s, Some(Principal(true, BuildClaims(u, roles, jti)))) == Success(u)
  {
    ClaimsDecode(u, roles, jti);
    UserRepository.ActiveUserByIdFindsRow(s, u);
  }
}
