/** Password login, token refresh and logout, with the refresh-token registry: one stored
    refresh token per user, written at login, read at refresh and deleted at logout. */
module Authentication {
  import opened Wrappers
  import opened Time
  import Text
  import JavaInt
  import TtlStore
  import Jwt
  import opened Users

  const INVALID_CREDENTIALS: string := "Invalid email or password"
  const ACCOUNT_LOCKED: string := "Account is temporarily locked due to multiple failed login attempts"
  const ACCOUNT_NOT_USABLE: string := "Account is not active or email is not verified"
  const INVALID_OR_EXPIRED_REFRESH: string := "Invalid or expired refresh token"
  const INVALID_REFRESH: string := "Invalid refresh token"
  const USER_NOT_ACTIVE: string := "User account is not active"

  /** The registry keeps each refresh token for seven days. */
  const REFRESH_TOKEN_TTL_MS: int := 7 * DAY_MS

  /** What the service throws: the message of an `AuthenticationException`, a missing user
      (`ResourceNotFoundException`), or a failure while parsing a token's claims. */
  datatype AuthError = AuthenticationError(message: string) | UserNotFound(id: string) | InvalidToken

  datatype LoginResponse = LoginResponse(accessToken: Jwt.Token, refreshToken: Jwt.Token, tokenType: string,
                                         expiresIn: int, userId: string)

  /** The registry key of a user's refresh token. */
  function RefreshKey(userId: string): (k: string)
    ensures Text.StartsWith(k, "refresh_token:") && k[|"refresh_token:"|..] == userId
  {
    "refresh_token:" + userId
  }

  lemma RefreshKeyInjective(a: string, b: string)
    requires RefreshKey(a) == RefreshKey(b)
    ensures a == b
  {
    assert a == RefreshKey(a)[14..];
  }

  // ---------------------------------------------------------------- login

  /** The branch a login attempt for an existing user takes, in the order the checks run. */
  datatype LoginStep = Locked | NotUsable | WrongPassword | Granted

  function LoginDecision(u: UserRecord, password: string, now: int): (s: LoginStep)
    ensures s == Granted <==>
              !u.IsAccountLocked(now) && u.IsActive() && u.IsEmailVerified() && Matches(password, u.passwordHash)
    ensures s == WrongPassword ==> !Matches(password, u.passwordHash)
    ensures u.IsAccountLocked(now) ==> s == Locked
  {
    if u.IsAccountLocked(now) then Locked
    else if !u.IsActive() || !u.IsEmailVerified() then NotUsable
    else if !Matches(password, u.passwordHash) then WrongPassword
    else Granted
  }

  /** After a granted login the account is not locked now or at any later time, and a
      positive counter has been brought back to zero. */
  lemma GrantedLoginUnlocks(u: UserRecord, password: string, now: int, later: int)
    requires LoginDecision(u, password, now) == Granted && now <= later
    ensures !IsLocked(AfterSuccess(u.LockState()), later)
    ensures AfterSuccess(u.LockState()).failedAttempts == if u.failedLoginAttempts > 0 then 0 else u.failedLoginAttempts
  {
  }

  /** The user after a granted login: counter and lock reset as `AfterSuccess` says, and the
      login time stamped. */
  function AfterLogin(u: UserRecord, now: int): (v: UserRecord)
    ensures v.LockState() == AfterSuccess(u.LockState()) && v.lastLoginAt == Some(now)
    ensures v.(lastLoginAt := u.lastLoginAt).WithLockState(u.LockState()) == u
  {
    u.WithLockState(AfterSuccess(u.LockState())).(lastLoginAt := Some(now))
  }

  /** The response of a granted login. */
  function Tokens(cfg: Jwt.JwtConfig, u: UserRecord, now: int): (r: LoginResponse)
    ensures Jwt.ValidateRefreshToken(cfg, r.refreshToken, now) <==>
              now <= Jwt.ToSeconds(now + cfg.refreshTokenExpirationMs) * 1000
    ensures !Jwt.ValidateAccessToken(cfg, r.refreshToken, now)
    ensures r.tokenType == "Bearer" && r.userId == u.id
  {
    LoginResponse(Jwt.GenerateAccessToken(cfg, u.id, u.role, u.email, now),
                  Jwt.GenerateRefreshToken(cfg, u.id, u.email, now),
                  "Bearer", Jwt.GetAccessTokenExpirationTime(cfg), u.id)
  }

  // ---------------------------------------------------------------- refresh

  /** `refreshToken`, given the registry, the presented token and the user found under the
      token's userId claim (`None` when there is no such user). */
  function RefreshOutcome(cfg: Jwt.JwtConfig, registry: TtlStore.Store<Jwt.Token>, token: Jwt.Token,
                          found: Option<UserRecord>, now: int): (r: Result<LoginResponse, AuthError>)
    ensures r.Success? <==>
              Jwt.ValidateRefreshToken(cfg, token, now) && found.Some?
              && TtlStore.Get(registry, RefreshKey(found.value.id), now) == Some(token)
              && found.value.IsActive()
    ensures r.Success? ==> r.value.refreshToken == token && r.value.userId == found.value.id
                           && Jwt.ValidateAccessToken(cfg, r.value.accessToken, now)
                              == (now <= Jwt.ToSeconds(now + cfg.accessTokenExpirationMs) * 1000)
    ensures !Jwt.ValidateRefreshToken(cfg, token, now) ==> r == Failure(AuthenticationError(INVALID_OR_EXPIRED_REFRESH))
  {
    if !Jwt.ValidateRefreshToken(cfg, token, now) then Failure(AuthenticationError(INVALID_OR_EXPIRED_REFRESH))
    else if found.None? then
      var id := Jwt.GetUserIdFromToken(cfg, token, now).value;
      Failure(UserNotFound(id.GetOr("")))
    else
      var u := found.value;
      var stored := TtlStore.Get(registry, RefreshKey(u.id), now);
      if stored.None? || stored.value != token then Failure(AuthenticationError(INVALID_REFRESH))
      else if !u.IsActive() then Failure(AuthenticationError(USER_NOT_ACTIVE))
      else Success(LoginResponse(Jwt.GenerateAccessToken(cfg, u.id, u.role, u.email, now), token,
                                 "Bearer", Jwt.GetAccessTokenExpirationTime(cfg), u.id))
  }

  /** Once a user's entry is deleted, no refresh for that user succeeds, whatever the token. */
  lemma LogoutRevokesRefresh(cfg: Jwt.JwtConfig, registry: TtlStore.Store<Jwt.Token>, token: Jwt.Token,
                             u: UserRecord, now: int)
    ensures RefreshOutcome(cfg, TtlStore.Delete(registry, RefreshKey(u.id)), token, Some(u), now).Failure?
  {
  }

  /** Only the most recently stored token refreshes: a login overwrites the entry, so a
      refresh token from an earlier login is refused as soon as it differs from the new one. */
  lemma LaterLoginSupersedes(cfg: Jwt.JwtConfig, registry: TtlStore.Store<Jwt.Token>, earlier: Jwt.Token,
                             newer: Jwt.Token, u: UserRecord, stored: int, now: int)
    requires earlier != newer
    ensures RefreshOutcome(cfg, TtlStore.Set(registry, RefreshKey(u.id), newer, stored, REFRESH_TOKEN_TTL_MS),
                           earlier, Some(u), now).Failure?
  {
  }

  // ---------------------------------------------------------------- the service

  class AuthenticationService {
    const jwt: Jwt.JwtConfig
    /** The refresh-token registry (`refresh_token:<id>` keys in Redis). */
    var refreshTokens: TtlStore.Store<Jwt.Token>

    constructor (jwt: Jwt.JwtConfig)
      ensures this.jwt == jwt && refreshTokens == map[]
    {
      this.jwt := jwt;
      refreshTokens := map[];
    }

    /** `login`. `found` is the user the email lookup (ignoring case) returned, or null. */
    method Login(email: string, password: string, found: User?, now: int) returns (r: Result<LoginResponse, AuthError>)
      requires found != null ==> Text.Lower(found.email) == Text.Lower(email) && found.Snapshot().Valid()
      modifies this, found
      ensures found == null ==> r == Failure(AuthenticationError(INVALID_CREDENTIALS)) && refreshTokens == old(refreshTokens)
      ensures found != null && LoginDecision(old(found.Snapshot()), password, now) == Locked ==>
                r == Failure(AuthenticationError(ACCOUNT_LOCKED))
                && found.Snapshot() == old(found.Snapshot()) && refreshTokens == old(refreshTokens)
      ensures found != null && LoginDecision(old(found.Snapshot()), password, now) == NotUsable ==>
                r == Failure(AuthenticationError(ACCOUNT_NOT_USABLE))
                && found.Snapshot() == old(found.Snapshot()) && refreshTokens == old(refreshTokens)
      ensures found != null && LoginDecision(old(found.Snapshot()), password, now) == WrongPassword ==>
                r == Failure(AuthenticationError(INVALID_CREDENTIALS))
                && found.Snapshot() == old(found.Snapshot()).WithLockState(AfterFailure(old(found.Snapshot()).LockState(), now))
                && refreshTokens == old(refreshTokens)
      ensures found != null && LoginDecision(old(found.Snapshot()), password, now) == Granted ==>
                found.Snapshot() == AfterLogin(old(found.Snapshot()), now)
                && r == Success(Tokens(jwt, found.Snapshot(), now))
                && refreshTokens == TtlStore.Set(old(refreshTokens), RefreshKey(found.id), r.value.refreshToken, now, REFRESH_TOKEN_TTL_MS)
    {
      if found == null {
        return Failure(AuthenticationError(INVALID_CREDENTIALS));
      }
      var user := found;
      if user.Snapshot().IsAccountLocked(now) {
        return Failure(AuthenticationError(ACCOUNT_LOCKED));
      }
      if !user.Snapshot().IsActive() || !user.Snapshot().IsEmailVerified() {
        return Failure(AuthenticationError(ACCOUNT_NOT_USABLE));
      }
      if !Matches(password, user.passwordHash) {
        HandleFailedLogin(user, now);
        return Failure(AuthenticationError(INVALID_CREDENTIALS));
      }
      user.SetLockState(AfterSuccess(user.Snapshot().LockState()));
      user.SetLastLoginAt(now);
      var response := Tokens(jwt, user.Snapshot(), now);
      StoreRefreshToken(user.id, response.refreshToken, now);
      r := Success(response);
    }

    /** `refreshToken`. `found` is the user the id lookup returned for the token's userId
        claim, or null. Nothing is written: the presented refresh token is handed back. */
    method RefreshToken(token: Jwt.Token, found: User?, now: int) returns (r: Result<LoginResponse, AuthError>)
      requires found != null ==> Jwt.GetUserIdFromToken(jwt, token, now) == Success(Some(found.id))
      ensures r == RefreshOutcome(jwt, refreshTokens, token, if found == null then None else Some(found.Snapshot()), now)
    {
      if !Jwt.ValidateRefreshToken(jwt, token, now) {
        return Failure(AuthenticationError(INVALID_OR_EXPIRED_REFRESH));
      }
      var userId := Jwt.GetUserIdFromToken(jwt, token, now).value;
      if found == null {
        return Failure(UserNotFound(userId.GetOr("")));
      }
      var stored := GetStoredRefreshToken(found.id, now);
      if stored.None? || stored.value != token {
        return Failure(AuthenticationError(INVALID_REFRESH));
      }
      if !found.Snapshot().IsActive() {
        return Failure(AuthenticationError(USER_NOT_ACTIVE));
      }
      var access := Jwt.GenerateAccessToken(jwt, found.id, found.role, found.email, now);
      r := Success(LoginResponse(access, token, "Bearer", Jwt.GetAccessTokenExpirationTime(jwt), found.id));
    }

    /** `logout`: deletes the user's registry entry. */
    method Logout(userId: string)
      modifies this
      ensures refreshTokens == TtlStore.Delete(old(refreshTokens), RefreshKey(userId))
      ensures forall t :: TtlStore.Get(refreshTokens, RefreshKey(userId), t) == None
    {
      refreshTokens := TtlStore.Delete(refreshTokens, RefreshKey(userId));
    }

    /** `handleFailedLogin`. */
    method HandleFailedLogin(user: User, now: int)
      requires user.Snapshot().Valid()
      modifies user
      ensures user.Snapshot() == old(user.Snapshot()).WithLockState(AfterFailure(old(user.Snapshot()).LockState(), now))
    {
      var failedAttempts := JavaInt.Wrap32(user.failedLoginAttempts + 1);
      var lockedUntil := user.accountLockedUntil;
      if failedAttempts >= MAX_FAILED_ATTEMPTS {
        lockedUntil := Some(PlusMinutes(now, LOCK_DURATION_MINUTES));
      }
      user.SetLockState(Lockout(failedAttempts, lockedUntil));
    }

    /** `storeRefreshToken`: overwrites the user's entry for seven days. */
    method StoreRefreshToken(userId: string, token: Jwt.Token, now: int)
      modifies this
      ensures refreshTokens == TtlStore.Set(old(refreshTokens), RefreshKey(userId), token, now, REFRESH_TOKEN_TTL_MS)
    {
      refreshTokens := TtlStore.Set(refreshTokens, RefreshKey(userId), token, now, REFRESH_TOKEN_TTL_MS);
    }

    /** `getStoredRefreshToken`. */
    method GetStoredRefreshToken(userId: string, now: int) returns (t: Option<Jwt.Token>)
      ensures t == TtlStore.Get(refreshTokens, RefreshKey(userId), now)
    {
      t := TtlStore.Get(refreshTokens, RefreshKey(userId), now);
    }
  }
}
