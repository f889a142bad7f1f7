/**
 * End-to-end properties that run through several services: an account that
 * registration stores can log in, the token it gets names it again, and a
 * soft delete locks it out.
 */
module Scenarios {
  import opened Common
  import opened Entities
  import opened Store
  import opened Hashing
  import opened Text
  import UserRepository
  import RoleRepository
  import UserService
  import AuthService

  /**
   * Registration followed by login: with a hasher that accepts its own
   * hashes, an account that registration stored is let in with the password
   * it registered, and the response names the new account. This holds even
   * for a request that asked for an inactive account, since the column
   * default stores every new row active.
   */
  lemma RegisteredUserCanLogIn(s: Store, h: Hasher, dto: CreateUserDto, freshId: string, t0: Time, t1: Time,
                               sign: seq<AuthService.Claim> -> string, jti: string, now: Time, hours: int)
    requires SoundHasher(h)
    requires UniqueIgnoringCase(s.users)
    requires UserService.Create(s, h, dto, freshId, t0, t1).result.Success?
    ensures var t := UserService.Create(s, h, dto, freshId, t0, t1).store;
      var r := AuthService.Authenticate(t, h, sign, dto.email, dto.password, jti, now, hours);
      r.Success? && r.data.user.id == freshId && r.data.user.email == dto.email
  {
    var t := UserService.Create(s, h, dto, freshId, t0, t1).store;
    var u := WithColumnDefaults(UserService.NewUser(h, dto, freshId, t0, t1));
    assert t.users[|s.users|] == u;
    UserService.CreateKeepsUniqueIgnoringCase(s, h, dto, freshId, t0, t1);
    AuthService.SoundHasherAdmitsOwner(t, h, sign, u, dto.password, jti, now, hours);
  }

  /**
   * Login followed by an authenticated request: when an active account holds
   * the email and the password checks out, login succeeds, and the claims
   * signed into its token resolve back to that account.
   */
  lemma LoginClaimsResolveToUser(s: Store, h: Hasher, sign: seq<AuthService.Claim> -> string,
                                 email: string, password: string, jti: string, now: Time, hours: int)
    requires WellFormed(s)
    requires forall u :: u in s.users ==> u.id != ""
    requires UserRepository.GetActiveUserByEmail(s, email).Some?
    requires h.verify(password, UserRepository.GetActiveUserByEmail(s, email).value.passwordHash) == Verified(true)
    ensures AuthService.Authenticate(s, h, sign, email, password, jti, now, hours).Success?
    ensures var u := UserRepository.GetActiveUserByEmail(s, email).value;
      var claims := AuthService.BuildClaims(u, Some(RoleRepository.GetUserRoles(s, u.id)), jti);
      && AuthService.Authenticate(s, h, sign, email, password, jti, now, hours).data.token == sign(claims)
      && AuthService.GetCurrentUser(s, Some(AuthService.Principal(true, claims))) == Success(u)
  {
    var u := UserRepository.GetActiveUserByEmail(s, email).value;
    AuthService.IssuedClaimsResolveToUser(s, u, Some(RoleRepository.GetUserRoles(s, u.id)), jti);
  }

  /**
   * A soft delete locks the account out: in a store with unique keys, after
   * the account is deactivated, logging in with its email is refused like
   * any unknown credentials, whatever the password.
   */
  lemma DeletedUserCannotLogIn(s: Store, h: Hasher, sign: seq<AuthService.Claim> -> string, u: User,
                               password: string, jti: string, now: Time, t: Time, hours: int)
    requires WellFormed(s) && UniqueIgnoringCase(s.users)
    requires u in s.users
    ensures var d := UserService.Delete(s, u.id, t).store;
      AuthService.Authenticate(d, h, sign, u.email, password, jti, now, hours)
        == Failure(AuthService.InvalidCredentials, StatusUnauthorized)
  {
    assert UserService.Delete(s, u.id, t).store == UserRepository.DeleteUser(s, u.id, t);
    UserRepository.DeletedEmailHasNoActiveUser(s, u, t);
  }
}
