/** Session tokens: the ACCESS and REFRESH claim sets and the checks that keep them apart.
    A signed token is the value `Signed(claims, key)`; verifying it with the configured secret
    succeeds exactly when it was signed with that secret. */
module Jwt {
  import opened Wrappers
  import JavaInt
  import Users

  /** JWT claims: the custom entries, the subject and the NumericDate fields in whole seconds. */
  datatype Claims = Claims(custom: map<string, string>, subject: string, issuedAt: int, expiration: int)

  /** A compact token, or any other text a client may present. */
  datatype Token = Signed(claims: Claims, key: string) | Malformed(text: string)

  /** The injected configuration: the HMAC secret and the two lifetimes in milliseconds. */
  datatype JwtConfig = JwtConfig(secret: string, accessTokenExpirationMs: int, refreshTokenExpirationMs: int)

  /** The default refresh lifetime, seven days in milliseconds. */
  const DEFAULT_REFRESH_EXPIRATION_MS: int := 604800000

  const TYPE_ACCESS: string := "ACCESS"
  const TYPE_REFRESH: string := "REFRESH"

  /** `java.util.Date` to JWT NumericDate: milliseconds truncated to seconds. */
  function ToSeconds(ms: int): int {
    JavaInt.Div(ms, 1000)
  }

  /** `createToken`: issued now, expiring `ttlMs` later, signed with the configured secret. */
  function CreateToken(cfg: JwtConfig, custom: map<string, string>, subject: string, ttlMs: int, now: int): (t: Token)
    ensures t.Signed? && t.key == cfg.secret
    ensures t.claims.custom == custom && t.claims.subject == subject
    ensures t.claims.issuedAt == ToSeconds(now) && t.claims.expiration == ToSeconds(now + ttlMs)
  {
    Signed(Claims(custom, subject, ToSeconds(now), ToSeconds(now + ttlMs)), cfg.secret)
  }

  function RoleName(r: Users.UserRole): string {
    match r
    case STUDENT => "STUDENT"
    case INSTRUCTOR => "INSTRUCTOR"
    case ADMIN => "ADMIN"
    case SUPER_ADMIN => "SUPER_ADMIN"
  }

  /** `generateAccessToken`: userId, role and type ACCESS, with the user's email as subject. */
  function GenerateAccessToken(cfg: JwtConfig, userId: string, role: Users.UserRole, email: string, now: int): (t: Token)
    ensures t.Signed? && t.key == cfg.secret && t.claims.subject == email
    ensures t.claims.custom == map["userId" := userId, "role" := RoleName(role), "type" := TYPE_ACCESS]
  {
    CreateToken(cfg, map["userId" := userId, "role" := RoleName(role), "type" := TYPE_ACCESS],
                email, cfg.accessTokenExpirationMs, now)
  }

  /** `generateRefreshToken`: userId and type REFRESH, and no role. */
  function GenerateRefreshToken(cfg: JwtConfig, userId: string, email: string, now: int): (t: Token)
    ensures t.Signed? && t.key == cfg.secret && t.claims.subject == email
    ensures t.claims.custom == map["userId" := userId, "type" := TYPE_REFRESH]
    ensures "role" !in t.claims.custom
  {
    CreateToken(cfg, map["userId" := userId, "type" := TYPE_REFRESH], email, cfg.refreshTokenExpirationMs, now)
  }

  /** The parser's expiry check: a token whose expiration instant lies before `now` is refused. */
  predicate IsExpired(c: Claims, now: int) {
    c.expiration * 1000 < now
  }

  /** `getAllClaimsFromToken`: the claims of a well-formed token signed with the secret that has
      not expired; every other token makes the parser throw, which is `None` here. */
  function ParseClaims(cfg: JwtConfig, t: Token, now: int): (r: Option<Claims>)
    ensures r.Some? <==> t.Signed? && t.key == cfg.secret && !IsExpired(t.claims, now)
    ensures r.Some? ==> r.value == t.claims
  {
    if t.Signed? && t.key == cfg.secret && !IsExpired(t.claims, now) then Some(t.claims) else None
  }

  predicate HasType(c: Claims, typ: string) {
    "type" in c.custom && c.custom["type"] == typ
  }

  /** `validateAccessToken`: the claims parse, the type is ACCESS and the token has not expired. */
  predicate ValidateAccessToken(cfg: JwtConfig, t: Token, now: int)
    ensures ValidateAccessToken(cfg, t, now) ==>
              t.Signed? && t.key == cfg.secret && HasType(t.claims, TYPE_ACCESS)
              && GetUserIdFromToken(cfg, t, now).Success?
  {
    var c := ParseClaims(cfg, t, now);
    c.Some? && HasType(c.value, TYPE_ACCESS) && !IsExpired(c.value, now)
  }

  /** `validateRefreshToken`: the same check with type REFRESH. */
  predicate ValidateRefreshToken(cfg: JwtConfig, t: Token, now: int)
    ensures ValidateRefreshToken(cfg, t, now) ==>
              t.Signed? && t.key == cfg.secret && HasType(t.claims, TYPE_REFRESH)
              && GetUserIdFromToken(cfg, t, now).Success?
  {
    var c := ParseClaims(cfg, t, now);
    c.Some? && HasType(c.value, TYPE_REFRESH) && !IsExpired(c.value, now)
  }

  /** `getUserIdFromToken`: the userId claim of a token that parses; the parser's exception
      otherwise. A parsed token without the claim yields Java's `null`, here `None`. */
  function GetUserIdFromToken(cfg: JwtConfig, t: Token, now: int): (r: Result<Option<string>, string>)
    ensures r.Success? <==> ParseClaims(cfg, t, now).Some?
    ensures r.Success? && r.value.Some? ==> "userId" in t.claims.custom && r.value.value == t.claims.custom["userId"]
  {
    match ParseClaims(cfg, t, now)
    case None => Failure("JwtException")
    case Some(c) => Success(if "userId" in c.custom then Some(c.custom["userId"]) else None)
  }

  /** `getAccessTokenExpirationTime`: the access lifetime in whole seconds, truncated toward
      zero as Java's `long` division does for a lifetime of either sign. */
  function GetAccessTokenExpirationTime(cfg: JwtConfig): (s: int)
    ensures cfg.accessTokenExpirationMs >= 0 ==> 1000 * s <= cfg.accessTokenExpirationMs < 1000 * s + 1000
    ensures cfg.accessTokenExpirationMs < 0 ==> 1000 * s - 1000 < cfg.accessTokenExpirationMs <= 1000 * s
  {
    ToSeconds(cfg.accessTokenExpirationMs)
  }

  // ---------------------------------------------------------------- properties

  /** No token is accepted both as an access token and as a refresh token. */
  lemma TypesAreDisjoint(cfg: JwtConfig, t: Token, now: int)
    ensures !(ValidateAccessToken(cfg, t, now) && ValidateRefreshToken(cfg, t, now))
  {
  }

  /** A refresh token is never accepted as an access token, nor the other way round. */
  lemma GeneratedTokensKeepTheirType(cfg: JwtConfig, userId: string, role: Users.UserRole,
                                     email: string, issued: int, now: int)
    ensures !ValidateAccessToken(cfg, GenerateRefreshToken(cfg, userId, email, issued), now)
    ensures !ValidateRefreshToken(cfg, GenerateAccessToken(cfg, userId, role, email, issued), now)
  {
  }

  /** A token signed with any other key is never accepted. */
  lemma ForeignKeyRejected(cfg: JwtConfig, c: Claims, key: string, now: int)
    requires key != cfg.secret
    ensures !ValidateAccessToken(cfg, Signed(c, key), now)
    ensures !ValidateRefreshToken(cfg, Signed(c, key), now)
    ensures GetUserIdFromToken(cfg, Signed(c, key), now).Failure?
  {
  }

  /** A freshly issued access token is accepted exactly until its expiration second ends:
      while `now` is at most the expiration instant, counted in whole seconds. */
  lemma AccessTokenLifetime(cfg: JwtConfig, userId: string, role: Users.UserRole, email: string, issued: int, now: int)
    ensures ValidateAccessToken(cfg, GenerateAccessToken(cfg, userId, role, email, issued), now)
            <==> now <= ToSeconds(issued + cfg.accessTokenExpirationMs) * 1000
  {
  }

  /** A refresh token carries its user id back out while it is alive. */
  lemma RefreshTokenUserId(cfg: JwtConfig, userId: string, email: string, issued: int, now: int)
    requires now <= ToSeconds(issued + cfg.refreshTokenExpirationMs) * 1000
    ensures ValidateRefreshToken(cfg, GenerateRefreshToken(cfg, userId, email, issued), now)
    ensures GetUserIdFromToken(cfg, GenerateRefreshToken(cfg, userId, email, issued), now) == Success(Some(userId))
  {
  }

  /** For non-negative clocks the expiration second is the issue instant plus the lifetime,
      truncated to seconds, so a token outlives its issue instant by less than one second
      short of its full lifetime and never by more. */
  lemma {:induction false} ExpirationBounds(now: int, ttlMs: int)
    requires now >= 0 && ttlMs >= 0
    ensures now + ttlMs - 1000 < ToSeconds(now + ttlMs) * 1000 <= now + ttlMs
  {
    JavaInt.DivTruncatesTowardZero(now + ttlMs, 1000);
  }
}
