# EduPlatform core, modelled in Dafny

EduPlatform is an online learning platform. It has a Spring backend and a React web client.
This project models the parts of it that decide things:

- the account lifecycle: registration, e-mail verification, password reset and change,
  profile update, login with the failed-attempt lock, and refresh tokens kept in a store
  with expiry;
- the JWT access and refresh tokens, one-time MFA codes, and the security helpers (random
  tokens, verification codes, e-mail masking, input sanitising, password strength, the
  domain and IP allow lists);
- the two request rate limiters: a per-client token bucket filter and a fixed-window
  interceptor;
- courses (creation with a unique slug and tags, publishing, archiving), enrollments with
  capacity, lesson progress and course progress;
- assignment grading, the bean-validation constraints, and the web client's pagination
  control and text-formatting helpers.

Entities the services change in place (`User`, `Course`, `Enrollment`, `LessonProgress`,
`Tag`, `UserProgress`, `AssignmentSubmission`) are classes whose methods state their new
state through a `Snapshot()` value. The rules about that value are functions with lemmas.
Services are classes, and their repositories and key-value stores are `map` fields.
A repository lookup is passed in as the object it found (or `null`). The clock is a `now`
parameter in milliseconds, and random draws are parameters too.

Numbers follow the source:

- Java `int` counters wrap at 2^31 (`JavaInt.Wrap32`);
- `BigDecimal` percentages and prices are integers in hundredths, rounded half-up;
- JavaScript page numbers are integers.

Source paths below are relative to the repository root.

## Model

| member | source | states |
|---|---|---|
| JavaInt.Wrap32 | backend/src/main/java/com/eduplatform/model/Tag.java:48-50 | the result is a 32-bit value congruent to the input modulo 2^32, equal to it when it already fits |
| JavaInt.Div | backend/src/main/java/com/eduplatform/util/JwtTokenUtil.java:112-122 | Java integer division: agrees with floor division for non-negative operands and has the sign of the exact quotient |
| JavaInt.DivTruncatesTowardZero | backend/src/main/java/com/eduplatform/util/JwtTokenUtil.java:112-122 | the remainder is zero or has the dividend's sign and is smaller than the divisor in magnitude |
| JavaInt.DivHalfUp | backend/src/main/java/com/eduplatform/model/enum/UserProgress.java:69-82 | `BigDecimal` division rounded HALF_UP: the quotient is within half a unit of n/d |
| JavaInt.DivHalfUpAtMost | backend/src/main/java/com/eduplatform/model/enum/UserProgress.java:69-82 | n <= k·d gives a rounded quotient of at most k |
| JavaInt.DivHalfUpExact | backend/src/main/java/com/eduplatform/model/enum/UserProgress.java:69-82 | exact quotients are not rounded |
| JavaInt.DivHalfUpMonotone | backend/src/main/java/com/eduplatform/service/impl/ProgressServiceImpl.java:76-109 | rounding half-up is monotone in the numerator |
| TtlStore.Get | backend/src/main/java/com/eduplatform/service/impl/AuthenticationServiceImpl.java:168-171 | a stored value is returned exactly while its expiry is in the future |
| TtlStore.Set | backend/src/main/java/com/eduplatform/service/impl/AuthenticationServiceImpl.java:163-166 | after a write with a TTL the key reads the value before the expiry and nothing after it; other keys are unchanged |
| TtlStore.Delete | backend/src/main/java/com/eduplatform/service/impl/AuthenticationServiceImpl.java:173-176 | the key reads nothing at any time; other keys are unchanged |
| TtlStore.TtlSeconds | backend/src/main/java/com/eduplatform/service/auth/MfaService.java:95-99 | -2 exactly for a missing key; otherwise the remaining milliseconds truncated to whole seconds, as `getExpire(key, SECONDS)` converts them |
| Users.AfterFailure | backend/src/main/java/com/eduplatform/service/impl/AuthenticationServiceImpl.java:151-161 | a failed login adds one to the counter (wrapping as an `int`); at five or more the account is locked for 30 minutes from now, otherwise the lock is unchanged |
| Users.AfterSuccess | backend/src/main/java/com/eduplatform/config/security/SecurityEventListener.java:35-47 | a success with failures recorded clears counter and lock, otherwise changes nothing; it never locks an account |
| Users.Failures | backend/src/main/java/com/eduplatform/service/impl/AuthenticationServiceImpl.java:151-161 | a run of failures keeps the counter a 32-bit value |
| Users.FailuresFromZero | backend/src/main/java/com/eduplatform/service/impl/AuthenticationServiceImpl.java:151-161 | from a clear record, k failures give counter k; fewer than five keep the lock; five or more lock for 30 minutes from the last failure |
| Users.FiveFailuresLock | backend/src/main/java/com/eduplatform/model/User.java:122-124 | after five failures from a clear record the account is locked exactly until 30 minutes after the fifth |
| Users.FewFailuresDoNotLock | backend/src/main/java/com/eduplatform/model/User.java:122-124 | fewer than five failures from an unlocked record never lock |
| Users.NewRecord | backend/src/main/java/com/eduplatform/model/User.java:52-95 | a new user is ACTIVE, unverified, unlocked, with a failure counter of 0 and no tokens |
| Users.UserRecord.IsActive | backend/src/main/java/com/eduplatform/model/User.java:118-120 | ACTIVE and not soft-deleted |
| Users.UserRecord.IsAccountLocked | backend/src/main/java/com/eduplatform/model/User.java:122-124 | locked exactly when a lock time is set and lies after now |
| Users.UserRecord.IsEmailVerified | backend/src/main/java/com/eduplatform/model/User.java:126-128 | verified only when the flag is set to true; a missing flag counts as not verified |
| Users.SoftDeleted | backend/src/main/java/com/eduplatform/model/User.java:131-134 | soft delete sets DELETED and the deletion time, so the user is no longer active; credentials and lock are kept |
| Users.User.constructor | backend/src/main/java/com/eduplatform/model/User.java:52-95 | the builder defaults |
| Users.User.SoftDelete | backend/src/main/java/com/eduplatform/model/User.java:131-134 | the object's state becomes `SoftDeleted` of its old state |
| Users.User.SetLockState | backend/src/main/java/com/eduplatform/service/impl/AuthenticationServiceImpl.java:151-161 | only counter and lock change |
| Users.User.SetPassword | backend/src/main/java/com/eduplatform/service/impl/UserServiceImpl.java:124-146 | only hash and counter change |
| Users.User.SetEmailVerificationToken | backend/src/main/java/com/eduplatform/service/impl/UserServiceImpl.java:219-239 | only the verification token and its expiry change |
| Users.User.SetPasswordResetToken | backend/src/main/java/com/eduplatform/service/impl/UserServiceImpl.java:242-263 | only the reset token and its expiry change |
| Jwt.CreateToken | backend/src/main/java/com/eduplatform/util/JwtTokenUtil.java:112-122 | a token signed with the configured secret, with the given claims, issued now and expiring after the TTL, in whole seconds |
| Jwt.GenerateAccessToken | backend/src/main/java/com/eduplatform/util/JwtTokenUtil.java:36-42 | subject is the e-mail; the claims are userId, role and type ACCESS |
| Jwt.GenerateRefreshToken | backend/src/main/java/com/eduplatform/util/JwtTokenUtil.java:44-49 | subject is the e-mail; the claims are userId and type REFRESH, with no role |
| Jwt.ParseClaims | backend/src/main/java/com/eduplatform/util/JwtTokenUtil.java:101-107 | claims are returned exactly when the signature key is the secret and the token has not expired |
| Jwt.IsExpired | backend/src/main/java/com/eduplatform/util/JwtTokenUtil.java:124-127 | a token has expired once its expiry instant lies strictly before now |
| Jwt.ValidateAccessToken | backend/src/main/java/com/eduplatform/util/JwtTokenUtil.java:51-67 | true exactly when the claims parse and the type claim is ACCESS; a token it accepts was signed with the secret, is typed ACCESS and yields a user id lookup that succeeds |
| Jwt.ValidateRefreshToken | backend/src/main/java/com/eduplatform/util/JwtTokenUtil.java:69-78 | the same check with type REFRESH; a token it accepts was signed with the secret, is typed REFRESH and yields a user id lookup that succeeds |
| Jwt.GetUserIdFromToken | backend/src/main/java/com/eduplatform/util/JwtTokenUtil.java:84-86 | succeeds exactly when parsing does, and then yields the userId claim |
| Jwt.GetAccessTokenExpirationTime | backend/src/main/java/com/eduplatform/util/JwtTokenUtil.java:92-94 | the access TTL in whole seconds, truncated toward zero for a lifetime of either sign |
| Jwt.TypesAreDisjoint | backend/src/main/java/com/eduplatform/util/JwtTokenUtil.java:51-78 | no token validates both as an access token and as a refresh token |
| Jwt.GeneratedTokensKeepTheirType | backend/src/main/java/com/eduplatform/util/JwtTokenUtil.java:36-78 | a refresh token is never accepted as an access token, and the other way round |
| Jwt.ForeignKeyRejected | backend/src/main/java/com/eduplatform/util/JwtTokenUtil.java:51-86 | a token signed with another key is rejected by both validators and by the user-id lookup |
| Jwt.AccessTokenLifetime | backend/src/main/java/com/eduplatform/util/JwtTokenUtil.java:124-127 | a fresh access token validates exactly until its expiry second |
| Jwt.RefreshTokenUserId | backend/src/main/java/com/eduplatform/util/JwtTokenUtil.java:69-86 | a live refresh token validates and yields the user id it was made for |
| Jwt.ExpirationBounds | backend/src/main/java/com/eduplatform/util/JwtTokenUtil.java:124-127 | truncating to seconds moves the expiry back by less than a second |
| Authentication.RefreshKey | backend/src/main/java/com/eduplatform/service/impl/AuthenticationServiceImpl.java:163-166 | the key is "refresh_token:" followed by the user id |
| Authentication.RefreshKeyInjective | backend/src/main/java/com/eduplatform/service/impl/AuthenticationServiceImpl.java:163-176 | two users never share a refresh-token key |
| Authentication.LoginDecision | backend/src/main/java/com/eduplatform/service/impl/AuthenticationServiceImpl.java:40-89 | access is granted exactly to an unlocked, active, verified user with the right password; a lock is reported first |
| Authentication.GrantedLoginUnlocks | backend/src/main/java/com/eduplatform/service/impl/AuthenticationServiceImpl.java:40-89 | after a granted login the account is unlocked and the counter is reset |
| Authentication.AfterLogin | backend/src/main/java/com/eduplatform/service/impl/AuthenticationServiceImpl.java:40-89 | only the lock fields and the last-login time change |
| Authentication.Tokens | backend/src/main/java/com/eduplatform/service/impl/AuthenticationServiceImpl.java:40-89 | the issued refresh token validates until its expiry and never as an access token; the token type is Bearer |
| Authentication.RefreshOutcome | backend/src/main/java/com/eduplatform/service/impl/AuthenticationServiceImpl.java:92-131 | a refresh succeeds exactly for a valid refresh token that is the one stored for an active user; it then returns that token and a new access token |
| Authentication.LogoutRevokesRefresh | backend/src/main/java/com/eduplatform/service/impl/AuthenticationServiceImpl.java:134-138 | after logout no refresh token of that user is accepted |
| Authentication.LaterLoginSupersedes | backend/src/main/java/com/eduplatform/service/impl/AuthenticationServiceImpl.java:163-166 | a new login's refresh token replaces the old one, which is then refused |
| Authentication.AuthenticationService.constructor | backend/src/main/java/com/eduplatform/service/impl/AuthenticationServiceImpl.java:36-37 | an empty token store |
| Authentication.AuthenticationService.Login | backend/src/main/java/com/eduplatform/service/impl/AuthenticationServiceImpl.java:40-89 | each outcome with its error and state: unknown user, locked, unusable, wrong password (failure counted), granted (tokens issued and the refresh token stored for seven days) |
| Authentication.AuthenticationService.RefreshToken | backend/src/main/java/com/eduplatform/service/impl/AuthenticationServiceImpl.java:92-131 | the reply is `RefreshOutcome` |
| Authentication.AuthenticationService.Logout | backend/src/main/java/com/eduplatform/service/impl/AuthenticationServiceImpl.java:134-138 | the user's refresh token is gone at every time |
| Authentication.AuthenticationService.HandleFailedLogin | backend/src/main/java/com/eduplatform/service/impl/AuthenticationServiceImpl.java:151-161 | the user's lock state becomes `AfterFailure` of the old one |
| Authentication.AuthenticationService.StoreRefreshToken | backend/src/main/java/com/eduplatform/service/impl/AuthenticationServiceImpl.java:163-166 | the token is stored under the user's key with a seven-day TTL |
| Authentication.AuthenticationService.GetStoredRefreshToken | backend/src/main/java/com/eduplatform/service/impl/AuthenticationServiceImpl.java:168-171 | the live stored token, if any |
| SecurityEvents.SecurityEventListener.HandleAuthenticationSuccess | backend/src/main/java/com/eduplatform/config/security/SecurityEventListener.java:35-47 | when `maskEmail` of the name throws, the call fails with its exception and the user is untouched; otherwise a known user's lock state becomes `AfterSuccess`, and with no failures recorded nothing changes |
| SecurityEvents.SecurityEventListener.HandleAuthenticationFailure | backend/src/main/java/com/eduplatform/config/security/SecurityEventListener.java:54-75 | when `maskEmail` of the name throws, the call fails before the lookup and the user is untouched; otherwise a known user's lock state becomes `AfterFailure`; the record stays valid |
| SecurityEvents.SecurityEventListener.HandleLogoutSuccess | backend/src/main/java/com/eduplatform/config/security/SecurityEventListener.java:80-82 | fails exactly when `maskEmail` of the name throws, and changes nothing |
| SecurityUtils.CharactersAreAlphanumeric | backend/src/main/java/com/eduplatform/util/SecurityUtils.java:18 | the token alphabet has 62 letters and digits |
| SecurityUtils.GenerateSecureToken | backend/src/main/java/com/eduplatform/util/SecurityUtils.java:72-78 | a token of the requested length (none for a negative one), each character the drawn letter or digit |
| SecurityUtils.GenerateVerificationCode | backend/src/main/java/com/eduplatform/util/SecurityUtils.java:147-149 | six decimal digits |
| SecurityUtils.NineNinesUnreachable | backend/src/main/java/com/eduplatform/util/SecurityUtils.java:147-149 | the code "999999" is never produced |
| SecurityUtils.VerificationCode | backend/src/main/java/com/eduplatform/util/SecurityUtils.java:147-149 | six digits that read back as the draw, for every draw below 10^6 |
| SecurityUtils.VerificationCodeBijective | backend/src/main/java/com/eduplatform/util/SecurityUtils.java:147-149 | every six-digit code comes from exactly one draw |
| SecurityUtils.MaskEmailThrowsOnTrailingAt | backend/src/main/java/com/eduplatform/util/SecurityUtils.java:154-168 | "ab@" and "@" make the method fail |
| SecurityUtils.MaskEmail | backend/src/main/java/com/eduplatform/util/SecurityUtils.java:154-168 | "***" without '@'; otherwise at most two characters of the local part, then "***@" and the domain |
| SecurityUtils.MaskEmailAgrees | backend/src/main/java/com/eduplatform/util/SecurityUtils.java:154-168 | wherever the method does not fail it returns `MaskEmail` |
| SecurityUtils.MaskEmailAsWritten | backend/src/main/java/com/eduplatform/util/SecurityUtils.java:154-168 | the method as written: "***" without '@', an index failure when `split("@")` leaves fewer than two pieces (as for "ab@"), otherwise the mask of the first two pieces |
| SecurityUtils.EscapeAll | backend/src/main/java/com/eduplatform/util/SecurityUtils.java:113-123 | no dangerous character (`< > " ' /`) is left |
| SecurityUtils.SanitizeInput | backend/src/main/java/com/eduplatform/util/SecurityUtils.java:113-123 | null stays null; the result holds no dangerous character |
| SecurityUtils.SanitizeIsPerCharacter | backend/src/main/java/com/eduplatform/util/SecurityUtils.java:113-123 | the chain of replacements equals escaping each character once: no later pass changes the text an earlier one inserted |
| SecurityUtils.RawStrength | backend/src/main/java/com/eduplatform/util/SecurityUtils.java:90-108 | the raw score is between 0 and 6 |
| SecurityUtils.GetPasswordStrength | backend/src/main/java/com/eduplatform/util/SecurityUtils.java:90-108 | the score is between 0 and 4, and 0 for a missing or empty password |
| SecurityUtils.StrengthMonotone | backend/src/main/java/com/eduplatform/util/SecurityUtils.java:90-108 | appending a character never lowers the score |
| SecurityUtils.LineTerminatorScoresLengthOnly | backend/src/main/java/com/eduplatform/util/SecurityUtils.java:90-108 | a password with a line terminator scores on length alone, since `matches` must cover the whole text |
| SecurityUtils.StrongPasswordScoresFour | backend/src/main/java/com/eduplatform/util/SecurityUtils.java:83-85 | every password `isStrongPassword` accepts gets the top strength score |
| SecurityUtils.TopScoreNotStrong | backend/src/main/java/com/eduplatform/util/SecurityUtils.java:83-108 | "Aa1~Aa1~Aa1~" scores 4 but is not strong, since '~' is outside the class |
| SecurityUtils.IsAllowedEmailDomain | backend/src/main/java/com/eduplatform/util/SecurityUtils.java:128-142 | true for a null e-mail or no list; otherwise exactly when the lower-cased text after the last '@' equals a listed domain, lower-cased |
| SecurityUtils.EmailDomainIgnoresCase | backend/src/main/java/com/eduplatform/util/SecurityUtils.java:128-142 | the domain compared does not depend on the case of the address |
| SecurityUtils.IsAllowedIP | backend/src/main/java/com/eduplatform/util/SecurityUtils.java:173-185 | true with no list; a null address against a list fails; otherwise true exactly when an entry equals the address or is "*" |
| Mfa.MfaTokenTtl | backend/src/main/java/com/eduplatform/service/auth/MfaService.java:95-99 | -2 exactly when no code is pending, otherwise non-negative |
| Mfa.TtlAtMostFiveMinutes | backend/src/main/java/com/eduplatform/service/auth/MfaService.java:29-30 | a code written at any time reports at most 300 seconds left |
| Mfa.PendingCodeReportsZeroInLastSecond | backend/src/main/java/com/eduplatform/service/auth/MfaService.java:95-99 | in its last second a code is still pending but reports 0 seconds left |
| Mfa.MfaService.constructor | backend/src/main/java/com/eduplatform/service/auth/MfaService.java:29-30 | an empty store |
| Mfa.MfaService.LogFailure | backend/src/main/java/com/eduplatform/service/auth/MfaService.java:51-55 | the exception the log lines' `maskEmail(email)` raises: present exactly when `MaskEmailAsWritten` fails, and then its error |
| Mfa.MfaService.GenerateAndSendMfaToken | backend/src/main/java/com/eduplatform/service/auth/MfaService.java:36-58 | the six-digit code `GenerateVerificationCode` makes from the draw is stored under "mfa:" and the e-mail for five minutes and is pending, and is never "999999"; the reply is true, or the exception `maskEmail` throws in the log line and again in the `catch` block, with the code already stored |
| Mfa.MfaService.VerifyMfaToken | backend/src/main/java/com/eduplatform/service/auth/MfaService.java:63-82 | a live stored code equal to the one given is deleted, any other case changes nothing; the reply is whether it matched, or the exception `maskEmail` throws, after the deletion |
| Mfa.MfaService.GetMfaTokenTtl | backend/src/main/java/com/eduplatform/service/auth/MfaService.java:95-99 | the reply is `MfaTokenTtl` |
| Mfa.MfaService.HasPendingMfaToken | backend/src/main/java/com/eduplatform/service/auth/MfaService.java:87-90 | a code is pending exactly when the store holds a live entry under "mfa:" and the e-mail |
| Mfa.MfaService.ClearMfaToken | backend/src/main/java/com/eduplatform/service/auth/MfaService.java:104-108 | the code is deleted, so none is pending at any time; the call then fails exactly when `maskEmail` throws |
| Mfa.VerifyTwice | backend/src/main/java/com/eduplatform/service/auth/MfaService.java:63-82 | a code accepted once is refused right after |
| UserService.Registered | backend/src/main/java/com/eduplatform/service/impl/UserServiceImpl.java:48-82 | a new account is INACTIVE, unverified, a STUDENT with the lower-cased e-mail, the password's hash and a 24-hour verification token |
| UserService.Verified | backend/src/main/java/com/eduplatform/service/impl/UserServiceImpl.java:187-216 | verification sets the flag and ACTIVE and clears the token; lock, deletion and password are kept |
| UserService.PasswordReset | backend/src/main/java/com/eduplatform/service/impl/UserServiceImpl.java:266-285 | the new password matches; the reset token and the counter are cleared; lock and status are kept |
| UserService.ApplyProfile | backend/src/main/java/com/eduplatform/service/impl/UserServiceImpl.java:92-121 | each field given replaces the old one, each absent one is kept, and nothing else changes |
| UserService.ApplyProfileIdempotent | backend/src/main/java/com/eduplatform/service/impl/UserServiceImpl.java:92-121 | an empty update changes nothing, and applying an update twice equals applying it once |
| UserService.RegisteredCannotLogIn | backend/src/main/java/com/eduplatform/service/impl/UserServiceImpl.java:48-82 | a just-registered account cannot log in |
| UserService.VerifiedAccountLogsIn | backend/src/main/java/com/eduplatform/service/impl/UserServiceImpl.java:187-216 | once verified, it logs in exactly with the registered password |
| UserService.ResetPasswordLogsIn | backend/src/main/java/com/eduplatform/service/impl/UserServiceImpl.java:266-285 | after a reset, an active verified unlocked user logs in with the new password |
| UserService.UserServiceImpl.Register | backend/src/main/java/com/eduplatform/service/impl/UserServiceImpl.java:48-82 | a taken e-mail (any case) fails; otherwise a new user equal to `Registered` |
| UserService.UserServiceImpl.VerifyEmail | backend/src/main/java/com/eduplatform/service/impl/UserServiceImpl.java:187-216 | unknown token gives false; a null expiry throws; an expired token gives false; otherwise true and the user is `Verified` |
| UserService.UserServiceImpl.ResendVerificationEmail | backend/src/main/java/com/eduplatform/service/impl/UserServiceImpl.java:219-239 | unknown e-mail, already verified and a null flag fail without change; otherwise a new token valid for 24 hours |
| UserService.UserServiceImpl.InitiatePasswordReset | backend/src/main/java/com/eduplatform/service/impl/UserServiceImpl.java:242-263 | a known user gets a reset token valid for one hour; an unknown e-mail changes nothing |
| UserService.UserServiceImpl.ResetPassword | backend/src/main/java/com/eduplatform/service/impl/UserServiceImpl.java:266-285 | unknown token, a null expiry and an expired token fail without change; otherwise the user is `PasswordReset` |
| UserService.UserServiceImpl.ChangePassword | backend/src/main/java/com/eduplatform/service/impl/UserServiceImpl.java:124-146 | unknown user, wrong current password and a mismatched confirmation fail without change; otherwise the new hash is stored and the counter cleared |
| UserService.UserServiceImpl.UpdateProfile | backend/src/main/java/com/eduplatform/service/impl/UserServiceImpl.java:92-121 | an unknown user fails; otherwise the user is `ApplyProfile` of the old state |
| UserService.VerifyEmailReplay | backend/src/main/java/com/eduplatform/service/impl/UserServiceImpl.java:187-216 | a verification token that succeeded once is refused the second time |
| AuthService.ValidateUserAccount | backend/src/main/java/com/eduplatform/service/auth/AuthService.java:336-348 | passes exactly for a user that is neither INACTIVE, SUSPENDED nor locked, with each error message |
| AuthService.GrantedLoginPassesValidation | backend/src/main/java/com/eduplatform/service/auth/AuthService.java:336-348 | a user the login service would admit also passes this validation |
| AuthService.ValidateRegistrationRequest | backend/src/main/java/com/eduplatform/service/auth/AuthService.java:323-331 | passes exactly when the passwords match and the terms are accepted; a null acceptance throws |
| AuthService.ResetByToken | backend/src/main/java/com/eduplatform/service/auth/AuthService.java:214-240 | the new password matches and the reset token is cleared; lock and status are kept |
| AuthService.EmailConfirmed | backend/src/main/java/com/eduplatform/service/auth/AuthService.java:246-264 | the user becomes ACTIVE and verified and the token is cleared; the expiry is left as it was |
| AuthService.ConfirmedAccountPassesValidation | backend/src/main/java/com/eduplatform/service/auth/AuthService.java:246-348 | a confirmed, unlocked account passes validation |
| AuthService.AuthService.ForgotPassword | backend/src/main/java/com/eduplatform/service/auth/AuthService.java:183-208 | an unknown e-mail fails; otherwise a reset token valid for one hour |
| AuthService.AuthService.ResetPassword | backend/src/main/java/com/eduplatform/service/auth/AuthService.java:214-240 | mismatched passwords, an unknown token and an expired or missing expiry fail without change; otherwise the user is `ResetByToken` |
| AuthService.AuthService.VerifyEmail | backend/src/main/java/com/eduplatform/service/auth/AuthService.java:246-264 | an unknown token fails; an ACTIVE user is told it is already verified; otherwise the user is `EmailConfirmed`, with no expiry check |
| AuthService.AuthService.ChangePassword | backend/src/main/java/com/eduplatform/service/auth/AuthService.java:270-292 | a mismatched confirmation, an unknown user and a wrong current password fail without change; otherwise the new hash is stored |
| AuthService.ResetReplay | backend/src/main/java/com/eduplatform/service/auth/AuthService.java:214-240 | a reset token that succeeded once is refused the second time |
| ClientAddress.FirstForwarded | backend/src/main/java/com/eduplatform/config/web/RateLimitingInterceptor.java:61-67 | the trimmed text before the first comma of X-Forwarded-For (the whole header when there is none) |
| ClientAddress.SplitOfSeparatorsIsEmpty | backend/src/main/java/com/eduplatform/config/web/RateLimitingInterceptor.java:64 | splitting a run of commas gives only empty pieces |
| ClientAddress.CommasOnlyFail | backend/src/main/java/com/eduplatform/config/web/RateLimitingInterceptor.java:64 | a header made only of commas makes `split(",")[0]` fail |
| ClientAddress.AsWrittenFailsOnCommas | backend/src/main/java/com/eduplatform/config/security/RateLimitingFilter.java:117-129 | the source's expression fails exactly on a non-empty header made only of commas |
| ClientAddress.FirstForwardedAgrees | backend/src/main/java/com/eduplatform/config/security/RateLimitingFilter.java:117-129 | wherever the source's expression does not fail it returns `FirstForwarded` |
| ClientAddress.FirstForwardedAsWritten | backend/src/main/java/com/eduplatform/config/web/RateLimitingInterceptor.java:64 | `split(",")[0].trim()` as written: an index failure when the split is empty |
| ClientAddress.SingleCommaThrows | backend/src/main/java/com/eduplatform/config/security/RateLimitingFilter.java:120 | "," fails as written and gives "" in the corrected form |
| RateLimitInterceptor.ClientId | backend/src/main/java/com/eduplatform/config/web/RateLimitingInterceptor.java:61-67 | the first forwarded address when the header is present and not empty, else the remote address |
| RateLimitInterceptor.ClientIdAgrees | backend/src/main/java/com/eduplatform/config/web/RateLimitingInterceptor.java:61-67 | the source fails exactly on a header of commas, and otherwise returns `ClientId` |
| RateLimitInterceptor.ClientIdAsWritten | backend/src/main/java/com/eduplatform/config/web/RateLimitingInterceptor.java:61-67 | the first forwarded address, as the source computes it, when the header is present and not empty, else the remote address |
| RateLimitInterceptor.Roll | backend/src/main/java/com/eduplatform/config/web/RateLimitingInterceptor.java:40-44 | more than a minute after the last reset, the counts are cleared and the reset time is now; otherwise nothing changes |
| RateLimitInterceptor.Step | backend/src/main/java/com/eduplatform/config/web/RateLimitingInterceptor.java:40-47 | after the roll, the client's count goes up by one and no other client's count changes |
| RateLimitInterceptor.Decide | backend/src/main/java/com/eduplatform/config/web/RateLimitingInterceptor.java:49-58 | 429 exactly when the count exceeds the limit; otherwise the remaining header is limit minus count |
| RateLimitInterceptor.ReplayCounts | backend/src/main/java/com/eduplatform/config/web/RateLimitingInterceptor.java:40-47 | within one window, a client's count is its count before plus its requests |
| RateLimitInterceptor.SameWindowAdmitsFirstN | backend/src/main/java/com/eduplatform/config/web/RateLimitingInterceptor.java:33-59 | within a window, a request is admitted exactly when its client has made at most `limit` requests counting this one |
| RateLimitInterceptor.FreshWindowAdmitsFirstN | backend/src/main/java/com/eduplatform/config/web/RateLimitingInterceptor.java:33-59 | in a fresh window each client's first `limit` requests pass and the rest are refused |
| RateLimitInterceptor.RateLimitingInterceptor.constructor | backend/src/main/java/com/eduplatform/config/web/RateLimitingInterceptor.java:23-31 | configuration kept, no counts, the window starts now |
| RateLimitInterceptor.RateLimitingInterceptor.PreHandle | backend/src/main/java/com/eduplatform/config/web/RateLimitingInterceptor.java:33-59 | disabled: admit without change; enabled, when `getClientId` as written throws (a comma-only X-Forwarded-For): the exception, with nothing counted; otherwise the window becomes `Step` for `ClientId` and the verdict is `Decide` |
| RateLimitFilter.TryConsume | backend/src/main/java/com/eduplatform/config/security/RateLimitingFilter.java:43 | one token is taken exactly when one is left; otherwise the bucket is unchanged |
| RateLimitFilter.ConsumeRunAdmits | backend/src/main/java/com/eduplatform/config/security/RateLimitingFilter.java:28-29 | n requests on a bucket admit min(n, tokens) and leave the rest |
| RateLimitFilter.ApiPathsAreFiltered | backend/src/main/java/com/eduplatform/config/security/RateLimitingFilter.java:159-169 | a path under /api/ other than the exempt ones is rate limited |
| RateLimitFilter.ShouldNotFilter | backend/src/main/java/com/eduplatform/config/security/RateLimitingFilter.java:159-169 | the actuator and static-resource prefixes and /favicon.ico bypass the limiter |
| RateLimitFilter.ExtractUserIdFromJwt | backend/src/main/java/com/eduplatform/config/security/RateLimitingFilter.java:99-112 | the placeholder finds no user for any Authorization header |
| RateLimitFilter.BucketKey | backend/src/main/java/com/eduplatform/config/security/RateLimitingFilter.java:55-56 | a bucket is keyed by the client identifier, a colon and the request path |
| RateLimitFilter.ClientIpAddress | backend/src/main/java/com/eduplatform/config/security/RateLimitingFilter.java:117-129 | the corrected address: X-Forwarded-For's first entry, else X-Real-IP, else the remote address |
| RateLimitFilter.ClientIdentifier | backend/src/main/java/com/eduplatform/config/security/RateLimitingFilter.java:78-94 | the corrected identifier: "api:" and the key when an API key is sent, else "ip:" and `ClientIpAddress` |
| RateLimitFilter.ClientIpAddressAsWritten | backend/src/main/java/com/eduplatform/config/security/RateLimitingFilter.java:117-129 | `getClientIpAddress` as written, with the index failure of `split(",")[0]` |
| RateLimitFilter.ClientIdentifierAsWritten | backend/src/main/java/com/eduplatform/config/security/RateLimitingFilter.java:78-94 | `getClientIdentifier` as written, over `ClientIpAddressAsWritten` |
| RateLimitFilter.ClientIdentifierAgrees | backend/src/main/java/com/eduplatform/config/security/RateLimitingFilter.java:78-129 | the identifier as written fails exactly with no API key and a comma-only X-Forwarded-For, and otherwise equals `ClientIdentifier` |
| RateLimitFilter.UserBranchUnreachable | backend/src/main/java/com/eduplatform/config/security/RateLimitingFilter.java:99-112 | since the user-id extraction always returns null, no identifier starts with "user:" |
| RateLimitFilter.ApiKeysSeparateClients | backend/src/main/java/com/eduplatform/config/security/RateLimitingFilter.java:78-94 | requests with different API keys get different buckets |
| RateLimitFilter.RateLimitExceeded | backend/src/main/java/com/eduplatform/config/security/RateLimitingFilter.java:134-153 | a 429 reply with Retry-After 60 |
| RateLimitFilter.RateLimitingFilter.constructor | backend/src/main/java/com/eduplatform/config/security/RateLimitingFilter.java:26-29 | no buckets |
| RateLimitFilter.RateLimitingFilter.GetBucket | backend/src/main/java/com/eduplatform/config/security/RateLimitingFilter.java:55-72 | the bucket for client and endpoint exists afterwards; a new one is full (100 tokens); an existing one is unchanged |
| RateLimitFilter.RateLimitingFilter.Filter | backend/src/main/java/com/eduplatform/config/security/RateLimitingFilter.java:32-50 | exempt paths pass untouched; when the identifier as written throws, the exception, with no bucket created or used; otherwise one token is taken from the client's bucket, and the request is forwarded exactly when one was left, else rejected with 429 |
| Slugs.GenerateSlug | backend/src/main/java/com/eduplatform/util/SlugUtils.java:27-48 | a null or blank input gives "" |
| Slugs.GenerateSlugIsSlug | backend/src/main/java/com/eduplatform/util/SlugUtils.java:27-48 | the result holds only lower-case letters, digits, '_' and single inner dashes |
| Slugs.GenerateSlugIdempotent | backend/src/main/java/com/eduplatform/util/SlugUtils.java:27-48 | a slug slugifies to itself when normalisation leaves ASCII unchanged |
| Slugs.SlugIsFixedPoint | backend/src/main/java/com/eduplatform/util/SlugUtils.java:35-47 | every step of the pipeline leaves a slug unchanged |
| Slugs.CandidateInjective | backend/src/main/java/com/eduplatform/util/SlugUtils.java:56-69 | different counters give different candidates |
| Slugs.CandidateNotBase | backend/src/main/java/com/eduplatform/util/SlugUtils.java:56-69 | no candidate equals the base |
| Slugs.GenerateUniqueSlug | backend/src/main/java/com/eduplatform/util/SlugUtils.java:56-69 | the base when free, else base-n for the least n >= 2 that is free; never taken |
| Slugs.LeastFreeSlugUnique | backend/src/main/java/com/eduplatform/util/SlugUtils.java:56-69 | that answer is unique |
| Tags.Incremented | backend/src/main/java/com/eduplatform/model/Tag.java:48-50 | a null count becomes 1; otherwise one more, wrapping at the `int` maximum |
| Tags.Decremented | backend/src/main/java/com/eduplatform/model/Tag.java:52-54 | one less for a positive count, else 0 |
| Tags.IncrementThenDecrement | backend/src/main/java/com/eduplatform/model/Tag.java:48-54 | incrementing then decrementing a count between 0 and the maximum restores it |
| Tags.ApplyOps | backend/src/main/java/com/eduplatform/model/Tag.java:48-54 | after any operation the count is present and a 32-bit value |
| Tags.UsageStaysNonNegative | backend/src/main/java/com/eduplatform/model/Tag.java:48-54 | from a non-negative count, fewer operations than the headroom keep the count between 0 and start plus their number |
| Tags.Tag.constructor | backend/src/main/java/com/eduplatform/model/Tag.java:41-42 | a new tag counts 0 |
| Tags.Tag.IncrementUsageCount | backend/src/main/java/com/eduplatform/model/Tag.java:48-50 | the count becomes `Incremented` of the old one |
| Tags.Tag.DecrementUsageCount | backend/src/main/java/com/eduplatform/model/Tag.java:52-54 | the count becomes `Decremented` of the old one |
| Courses.EffectivePrice | backend/src/main/java/com/eduplatform/model/Course.java:138-140 | the discount price when set, else the price |
| Courses.CourseRecord.IsPublished | backend/src/main/java/com/eduplatform/model/Course.java:130-132 | PUBLISHED with a publication time |
| Courses.CourseRecord.IsActive | backend/src/main/java/com/eduplatform/model/Course.java:134-136 | PUBLISHED and not soft-deleted |
| Courses.CourseRecord.IsFree | backend/src/main/java/com/eduplatform/model/Course.java:142-145 | free when the effective price is missing or zero |
| Courses.EnrollmentCount | backend/src/main/java/com/eduplatform/model/Course.java:147-149 | the number of enrollments, 0 for none |
| Courses.DiscountDecidesFreeness | backend/src/main/java/com/eduplatform/model/Course.java:142-145 | with a discount, the course is free exactly when the discount is zero, whatever the list price |
| Courses.ListPriceDecidesFreeness | backend/src/main/java/com/eduplatform/model/Course.java:142-145 | without a discount, free exactly when the price is null or zero |
| Courses.SoftDeleted | backend/src/main/java/com/eduplatform/model/Course.java:151-154 | deletion time and ARCHIVED are set, so the course is neither active nor published; nothing else changes |
| Courses.Course.SoftDelete | backend/src/main/java/com/eduplatform/model/Course.java:151-154 | the course becomes `SoftDeleted` |
| CourseService.CheckOwnershipOrAdmin | backend/src/main/java/com/eduplatform/service/impl/CourseServiceImpl.java:224-229 | passes exactly for the owner or an admin; an unknown user and anyone else fail with their messages |
| CourseService.NewCourse | backend/src/main/java/com/eduplatform/service/impl/CourseServiceImpl.java:55-91 | a new course is DRAFT, unpublished, without enrollments, in USD unless a currency is given |
| CourseService.Published | backend/src/main/java/com/eduplatform/service/impl/CourseServiceImpl.java:127-140 | published with the time set; active exactly when not deleted; nothing else changes |
| CourseService.Archived | backend/src/main/java/com/eduplatform/service/impl/CourseServiceImpl.java:143-155 | ARCHIVED, neither published nor active; the publication time is kept |
| CourseService.PublishThenArchive | backend/src/main/java/com/eduplatform/service/impl/CourseServiceImpl.java:127-155 | publishing then archiving keeps the publication time and never returns to DRAFT |
| CourseService.CollectedAll | backend/src/main/java/com/eduplatform/service/impl/CourseServiceImpl.java:246-264 | after the loop every name has a tag under its lower-case name whose slug is collected, and only such slugs are |
| CourseService.CourseServiceImpl.constructor | backend/src/main/java/com/eduplatform/service/impl/CourseServiceImpl.java:246-264 | the tag repository given |
| CourseService.CourseServiceImpl.EnsureUniqueSlug | backend/src/main/java/com/eduplatform/service/impl/CourseServiceImpl.java:235-242 | the least free slug of the base |
| CourseService.CourseServiceImpl.FindOrCreateTag | backend/src/main/java/com/eduplatform/service/impl/CourseServiceImpl.java:249-259 | an existing tag of that lower-case name is reused; otherwise a new one with the name, the generated slug and count 0 is saved |
| CourseService.CourseServiceImpl.HandleTags | backend/src/main/java/com/eduplatform/service/impl/CourseServiceImpl.java:246-264 | no names: no change; otherwise existing tags are kept, new ones come from the names, and the slugs are exactly those of the names' tags |
| CourseService.CourseServiceImpl.CreateCourse | backend/src/main/java/com/eduplatform/service/impl/CourseServiceImpl.java:55-91 | unknown instructor, a non-instructor and an unknown category fail without change; otherwise a new DRAFT course with the least free slug of its title and the tags' slugs |
| CourseService.CourseServiceImpl.PublishCourse | backend/src/main/java/com/eduplatform/service/impl/CourseServiceImpl.java:127-140 | unknown course, no permission, or not DRAFT fail without change; otherwise the course is `Published` |
| CourseService.CourseServiceImpl.ArchiveCourse | backend/src/main/java/com/eduplatform/service/impl/CourseServiceImpl.java:143-155 | unknown course, no permission, or not PUBLISHED fail without change; otherwise the course is `Archived` |
| Enrollments.NewEnrollment | backend/src/main/java/com/eduplatform/model/Enrollment.java:49-69 | a new enrollment is ACTIVE at 0 %, with no certificate, for that student and course |
| Enrollments.EnrollmentRecord.IsActive | backend/src/main/java/com/eduplatform/model/Enrollment.java:80-82 | the status is ACTIVE |
| Enrollments.EnrollmentRecord.IsCompleted | backend/src/main/java/com/eduplatform/model/Enrollment.java:84-86 | COMPLETED with a completion time |
| Enrollments.Completed | backend/src/main/java/com/eduplatform/model/Enrollment.java:88-92 | COMPLETED at 100 % with the time set; nothing else changes |
| Enrollments.CompletedTwice | backend/src/main/java/com/eduplatform/model/Enrollment.java:88-92 | completing again only moves the completion time |
| Enrollments.Enrollment.MarkCompleted | backend/src/main/java/com/eduplatform/model/Enrollment.java:88-92 | the enrollment becomes `Completed` |
| Enrollments.ActiveCountAdd | backend/src/main/java/com/eduplatform/service/impl/EnrollmentServiceImpl.java:48-85 | saving a new active enrollment raises the course's active count by one |
| Enrollments.ActiveCountLeave | backend/src/main/java/com/eduplatform/service/impl/EnrollmentServiceImpl.java:88-94 | changing one enrollment's status never raises a course's active count |
| Enrollments.EnrollmentServiceImpl.constructor | backend/src/main/java/com/eduplatform/service/impl/EnrollmentServiceImpl.java:48-85 | the repository given |
| Enrollments.EnrollmentServiceImpl.EnrollStudent | backend/src/main/java/com/eduplatform/service/impl/EnrollmentServiceImpl.java:48-85 | each failure in the source's order without change; otherwise a new ACTIVE enrollment, and the active count stays within capacity |
| Enrollments.EnrollmentServiceImpl.UnenrollStudent | backend/src/main/java/com/eduplatform/service/impl/EnrollmentServiceImpl.java:88-94 | unknown user, course or enrollment fail; otherwise the enrollment becomes DROPPED and no active count rises |
| Enrollments.EnrollmentServiceImpl.Drop | backend/src/main/java/com/eduplatform/service/impl/EnrollmentServiceImpl.java:88-94 | one enrollment becomes DROPPED |
| Enrollments.EnrollmentServiceImpl.UpdateStatus | backend/src/main/java/com/eduplatform/service/impl/EnrollmentServiceImpl.java:99-111 | unknown id fails; otherwise the status is set, with the completion time when it is COMPLETED |
| Enrollments.EnrollmentServiceImpl.DeleteById | backend/src/main/java/com/eduplatform/service/impl/EnrollmentServiceImpl.java:223-228 | unknown id fails; otherwise a soft delete to DROPPED |
| Enrollments.DroppedCannotReenroll | backend/src/main/java/com/eduplatform/service/impl/EnrollmentServiceImpl.java:58-60 | a dropped enrollment still counts as enrolled, so the student cannot enroll again |
| Enrollments.ReactivationBypassesCapacity | backend/src/main/java/com/eduplatform/service/impl/EnrollmentServiceImpl.java:99-111 | setting a DROPPED enrollment back to ACTIVE raises the active count without a capacity check |
| LessonProgresses.NewLessonProgress | backend/src/main/java/com/eduplatform/model/LessonProgress.java:66-81 | a new record is NOT_STARTED with no times, no score, 0 seconds and 0 attempts |
| LessonProgresses.LessonProgressRecord.IsCompleted | backend/src/main/java/com/eduplatform/model/LessonProgress.java:66-68 | the status is COMPLETED |
| LessonProgresses.Started | backend/src/main/java/com/eduplatform/model/LessonProgress.java:70-75 | only a NOT_STARTED lesson moves to IN_PROGRESS with the start time; others are unchanged |
| LessonProgresses.CompletedWith | backend/src/main/java/com/eduplatform/model/LessonProgress.java:77-81 | COMPLETED with the time and the score; nothing else changes |
| LessonProgresses.StartedIdempotent | backend/src/main/java/com/eduplatform/model/LessonProgress.java:70-75 | starting twice equals starting once |
| LessonProgresses.StartThenComplete | backend/src/main/java/com/eduplatform/model/LessonProgress.java:66-81 | starting never changes whether a lesson is completed; completing always completes it |
| LessonProgresses.LessonProgress.MarkAsStarted | backend/src/main/java/com/eduplatform/model/LessonProgress.java:70-75 | the record becomes `Started` |
| LessonProgresses.LessonProgress.MarkAsCompleted | backend/src/main/java/com/eduplatform/model/LessonProgress.java:77-81 | the record becomes `CompletedWith` |
| UserProgresses.RatioPercentage | backend/src/main/java/com/eduplatform/model/enum/UserProgress.java:69-82 | a whole percentage in hundredths: 0 for none, 100 % for all, never above 100 % for a count within the total, and of the count's sign |
| UserProgresses.UserProgressRecord.IsCompleted | backend/src/main/java/com/eduplatform/model/enum/UserProgress.java:84-86 | the status is COMPLETED |
| UserProgresses.RatioPercentageWithinHalfPercent | backend/src/main/java/com/eduplatform/model/enum/UserProgress.java:69-82 | within half a percent of the exact ratio |
| UserProgresses.Updated | backend/src/main/java/com/eduplatform/model/enum/UserProgress.java:69-82 | no lessons: unchanged; otherwise the percentage is recomputed; all done: COMPLETED now; some: IN_PROGRESS; none: status kept |
| UserProgresses.UpdatedStable | backend/src/main/java/com/eduplatform/model/enum/UserProgress.java:69-82 | updating again keeps percentage and status |
| UserProgresses.OneOfThreeIsWholePercent | backend/src/main/java/com/eduplatform/model/enum/UserProgress.java:72-74 | one lesson of three shows 33.00 %, not 33.33 %: the ratio is rounded to a whole percent first |
| UserProgresses.UserProgress.constructor | backend/src/main/java/com/eduplatform/model/enum/UserProgress.java:69-86 | NOT_STARTED with zero counts |
| UserProgresses.UserProgress.UpdateProgress | backend/src/main/java/com/eduplatform/model/enum/UserProgress.java:69-82 | the record becomes `Updated` |
| ProgressService.PercentageOf | backend/src/main/java/com/eduplatform/service/impl/ProgressServiceImpl.java:76-109 | completed/total as a percentage in hundredths, rounded half-up: 0 for none, 100 % for all |
| ProgressService.PercentageMonotone | backend/src/main/java/com/eduplatform/service/impl/ProgressServiceImpl.java:76-109 | more completed lessons never show a lower percentage |
| ProgressService.FullPercentageBeforeCompletion | backend/src/main/java/com/eduplatform/service/impl/ProgressServiceImpl.java:76-109 | 20000 of 20001 lessons already shows 100.00 % while the enrollment is not completed |
| ProgressService.Recalculated | backend/src/main/java/com/eduplatform/service/impl/ProgressServiceImpl.java:76-109 | no lessons: 0 %; some left: the percentage; all: the enrollment is completed at 100 % |
| ProgressService.LessonAfter | backend/src/main/java/com/eduplatform/service/impl/ProgressServiceImpl.java:46-73 | the lesson is started; time spent is added when given; a completed flag completes it without a score |
| ProgressService.ApplyUpdate | backend/src/main/java/com/eduplatform/service/impl/ProgressServiceImpl.java:46-73 | the saved record is `LessonAfter` |
| ProgressService.ProgressServiceImpl.constructor | backend/src/main/java/com/eduplatform/service/impl/ProgressServiceImpl.java:46-73 | the repositories given, no completion notices |
| ProgressService.ProgressServiceImpl.CompletedLessonsOf | backend/src/main/java/com/eduplatform/service/impl/ProgressServiceImpl.java:94 | completed lessons are lessons of the course |
| ProgressService.ProgressServiceImpl.RecalculateCourseProgress | backend/src/main/java/com/eduplatform/service/impl/ProgressServiceImpl.java:76-109 | unknown user, course or enrollment fail without change; otherwise the enrollment is `Recalculated`, with a completion notice exactly when every lesson is done |
| ProgressService.ProgressServiceImpl.UpdateLessonProgress | backend/src/main/java/com/eduplatform/service/impl/ProgressServiceImpl.java:46-73 | unknown user or lesson fail without change; otherwise the saved record is `LessonAfter` of the stored or a new one. An incomplete lesson leaves enrollments and notices unchanged. A completed one fails with "Enrollment not found", without change, when the student is not enrolled in the lesson's course; otherwise it succeeds and the enrollment and notices are those of `CourseRecalculated` |
| ProgressService.ProgressServiceImpl.StartLesson | backend/src/main/java/com/eduplatform/service/impl/ProgressServiceImpl.java:114-117 | unknown user or lesson fail without change; on success the stored record is `Started` of the earlier or a new one; a lesson not yet completed stays incomplete and leaves enrollments and notices unchanged; a completed one recalculates the course as `CourseRecalculated` |
| ProgressService.ProgressServiceImpl.MarkLessonComplete | backend/src/main/java/com/eduplatform/service/impl/ProgressServiceImpl.java:120-124 | unknown user or lesson fail, and so does a student not enrolled in the lesson's course ("Enrollment not found"), without change; otherwise it succeeds, the stored record is COMPLETED now with no score, and the enrollment and notices are those of `CourseRecalculated` |
| Submissions.NewSubmission | backend/src/main/java/com/eduplatform/model/AssignmentSubmission.java:45-65 | a new submission is SUBMITTED, attempt 1, unscored and not passed |
| Submissions.SubmissionRecord.IsGraded | backend/src/main/java/com/eduplatform/model/AssignmentSubmission.java:68-70 | GRADED with a score |
| Submissions.SubmissionRecord.IsPassed | backend/src/main/java/com/eduplatform/model/AssignmentSubmission.java:72-75 | graded, with an assignment that has a passing score, and the score reaches it |
| Submissions.Graded | backend/src/main/java/com/eduplatform/model/AssignmentSubmission.java:77-83 | score, feedback, grader and time are stored and the status is GRADED; nothing else changes |
| Submissions.GradedIffScored | backend/src/main/java/com/eduplatform/model/AssignmentSubmission.java:68-83 | after grading the submission counts as graded exactly when a score was given |
| Submissions.PassedAfterGrading | backend/src/main/java/com/eduplatform/model/AssignmentSubmission.java:72-83 | passed exactly when the score reaches the assignment's passing score |
| Submissions.HigherScoreStillPasses | backend/src/main/java/com/eduplatform/model/AssignmentSubmission.java:72-75 | a higher score passes whenever a lower one does |
| Submissions.RegradeOverwrites | backend/src/main/java/com/eduplatform/model/AssignmentSubmission.java:77-83 | regrading replaces the earlier grade entirely |
| Submissions.AssignmentSubmission.constructor | backend/src/main/java/com/eduplatform/model/AssignmentSubmission.java:45-65 | the builder defaults |
| Submissions.AssignmentSubmission.Grade | backend/src/main/java/com/eduplatform/model/AssignmentSubmission.java:77-83 | the submission becomes `Graded` |
| Validators.PasswordAccepted | backend/src/main/java/com/eduplatform/config/validation/validator/PasswordValidator.java:27-49 | accepted exactly when present, long enough and holding a character of every required class |
| Validators.PasswordValidator.IsValid | backend/src/main/java/com/eduplatform/config/validation/validator/PasswordValidator.java:27-49 | the verdict is `PasswordAccepted` under the policy the annotation configured |
| Validators.RelaxingPolicyKeepsValid | backend/src/main/java/com/eduplatform/config/validation/validator/PasswordValidator.java:18-49 | a looser policy accepts every password a stricter one accepts |
| Validators.PasswordValidator.constructor | backend/src/main/java/com/eduplatform/config/validation/validator/PasswordValidator.java:18-24 | an unconfigured validator |
| Validators.PasswordValidator.Initialize | backend/src/main/java/com/eduplatform/config/validation/validator/PasswordValidator.java:18-24 | the policy becomes the annotation's |
| Validators.EmailAcceptedIgnoresCase | backend/src/main/java/com/eduplatform/validation/AllowedEmailDomain.java:33-52 | the case of the address never changes the verdict |
| Validators.BareDomainRejected | backend/src/main/java/com/eduplatform/validation/AllowedEmailDomain.java:33-52 | an address without '@' is rejected here, though the helper in SecurityUtils accepts it |
| Validators.EmailDomainValidator.constructor | backend/src/main/java/com/eduplatform/validation/AllowedEmailDomain.java:28-31 | no domains |
| Validators.EmailDomainValidator.Initialize | backend/src/main/java/com/eduplatform/validation/AllowedEmailDomain.java:28-31 | keeps the annotation's list |
| Validators.EmailDomainValidator.IsValid | backend/src/main/java/com/eduplatform/validation/AllowedEmailDomain.java:33-52 | null or no list passes; no '@' fails; otherwise exactly when the lower-cased domain after the last '@' equals a listed one, lower-cased |
| Validators.EmailAccepted | backend/src/main/java/com/eduplatform/validation/AllowedEmailDomain.java:33-52 | a null address or an empty list passes; an address without '@' fails; otherwise the lower-cased text after the last '@' must equal a lower-cased listed domain |
| Validators.FileExtension | backend/src/main/java/com/eduplatform/config/validation/validator/FileExtensionValidator.java:35-41 | the text after the last dot, "" without one, and it holds no dot |
| Validators.FileAccepted | backend/src/main/java/com/eduplatform/config/validation/validator/FileExtensionValidator.java:21-33 | a missing or empty upload passes; a missing or empty name fails; otherwise the lower-cased extension must be listed as written |
| Validators.FileExtensionOfJoin | backend/src/main/java/com/eduplatform/config/validation/validator/FileExtensionValidator.java:35-41 | the extension of base + "." + ext is ext |
| Validators.UpperCaseEntryNeverMatches | backend/src/main/java/com/eduplatform/config/validation/validator/FileExtensionValidator.java:21-33 | a listed extension with an upper-case letter never matches, because only the file's extension is lower-cased |
| Validators.DefaultListIgnoresFileCase | backend/src/main/java/com/eduplatform/config/validation/annotation/ValidFileExtension.java:15 | under the default list "notes.PDF" is accepted and a name without an extension is not |
| Validators.FileExtensionValidator.constructor | backend/src/main/java/com/eduplatform/config/validation/validator/FileExtensionValidator.java:16-18 | no extensions |
| Validators.FileExtensionValidator.Initialize | backend/src/main/java/com/eduplatform/config/validation/validator/FileExtensionValidator.java:16-18 | keeps the annotation's list |
| Validators.FileExtensionValidator.IsValid | backend/src/main/java/com/eduplatform/config/validation/validator/FileExtensionValidator.java:21-33 | the verdict is `FileAccepted` for the configured list |
| Pagination.Window | frontend/src/components/ui/Pagination.tsx:20-33 | the window's first and last pages, after moving it forward near the start and back near the end |
| Pagination.GetPageNumbers | frontend/src/components/ui/Pagination.tsx:20-57 | the list is the lead, the window's pages and the tail |
| Pagination.WindowHoldsCurrent | frontend/src/components/ui/Pagination.tsx:20-33 | for an existing page the window is within the pages and holds it |
| Pagination.PageListWellFormed | frontend/src/components/ui/Pagination.tsx:20-57 | the list runs from page 0 to the last, holds the current page, shows only existing pages in order, and uses an ellipsis exactly where pages are hidden |
| Pagination.EvenWindowShowsOneMore | frontend/src/components/ui/Pagination.tsx:22-25 | an even `maxVisiblePages` of 4 shows five numbers |
| Pagination.Render | frontend/src/components/ui/Pagination.tsx:59-121 | nothing for one page or none; otherwise the list, with previous disabled exactly on the first page and next exactly on the last |
| Pagination.EnabledButtonsStayInRange | frontend/src/components/ui/Pagination.tsx:69-121 | an enabled button leads to an existing page |
| Pagination.ShownRange | frontend/src/components/ui/Pagination.tsx:136-137 | the first row is page·size + 1; the last is the end of the page or of the results, whichever is smaller |
| Pagination.ShownRangeOfExistingPage | frontend/src/components/ui/Pagination.tsx:136-137 | for a page that holds rows the range is non-empty, within the results and at most a page wide |
| Pagination.EmptyResultsShowOneToZero | frontend/src/components/ui/Pagination.tsx:136-137 | with no results the line reads "Showing 1 to 0 of 0" |
| Format.GetInitials | frontend/src/utils/format.ts:6-15 | "" for a blank name; at most two characters, none a lower-case letter |
| Format.InitialsOfOneWord | frontend/src/utils/format.ts:6-15 | one word gives its capitalised first letter |
| Format.InitialsOfTwoWords | frontend/src/utils/format.ts:6-15 | two words give both capitalised first letters |
| Format.FormatName | frontend/src/utils/format.ts:23-32 | never empty and trimmed; both names joined by a space, one name alone, or "Anonymous" |
| Format.InitialsOfFormattedName | frontend/src/utils/format.ts:6-32 | the initials of a formatted first and last name are their capitalised first letters |
| Format.CapitalizeEach | frontend/src/utils/format.ts:39-47 | a reference definition: a letter is capitalised exactly at the start or after a space |
| Format.SplitCapitalizeJoin | frontend/src/utils/format.ts:39-47 | splitting on spaces, capitalising each word and joining equals `CapitalizeEach` |
| Format.CapitalizeWordsPerCharacter | frontend/src/utils/format.ts:39-47 | same length; each character is lower-cased, and capitalised at the start or after a space |
| Format.SliceEnd | frontend/src/utils/format.ts:55-59 | JavaScript `slice` end: within the text, and equal to a non-negative end clipped to the length |
| Format.TruncateText | frontend/src/utils/format.ts:55-59 | a blank or short text is unchanged; a longer one ends with "..." |
| Format.TruncatedIsTrimmedPrefix | frontend/src/utils/format.ts:55-59 | a truncated text is the trimmed first `maxLength` characters and "...", at most `maxLength` + 3 long |
| Format.NegativeMaximumCountsFromEnd | frontend/src/utils/format.ts:55-59 | a negative maximum cuts characters from the end, or leaves only "..." |
| Format.GetDisplayName | frontend/src/utils/format.ts:66-85 | the formatted name if either part is set, else the name, else the e-mail's local part (no '@'), else "Anonymous" |
| Format.DisplayNameFromEmail | frontend/src/utils/format.ts:80-82 | with only an e-mail, its local part is shown |
| Format.BlankFirstNameHidesEmail | frontend/src/utils/format.ts:66-85 | a first name of one space gives "Anonymous" even when a name and an e-mail are known |

## Left out

- Logging, e-mails and notifications: only the state changes around them are modelled, and the
  exception `maskEmail` throws while a log argument is built. The
  completion notice of `ProgressServiceImpl.recalculateCourseProgress` is an entry appended to a list.
- Concurrency: the services are modelled one call at a time. The interceptor's
  `ConcurrentHashMap` and `AtomicInteger` are a map of integers that cannot overflow.
- Bucket4j refill over time: a bucket only loses tokens in the model.
- `Normalizer.normalize(NFD)` is a function parameter of the slug generator, not modelled.
- Case mapping is ASCII only. Java `trim`, Java `\s` and JavaScript whitespace are each
  modelled by their own character sets.
- UTF-16 lengths are sequence lengths; characters outside the basic plane are not treated specially.
- JWT signing is a signed value that verifies exactly under its key. Weak-key exceptions,
  malformed tokens and `UUID` parsing of user ids are not modelled.
- BCrypt is a hash value that matches exactly its own password.
- `BigDecimal` money and percentages are integers in hundredths. The lesson score (`Double`) is a `real`.
- JavaScript numbers in the web helpers are integers. Non-string inputs to the format helpers are not modelled.
- The `getMfaTokenTtl` reply when the store returns null is not modelled: a missing key reads -2.
- `AuthService.login`, `register`, `refreshToken` and `getProfile`: that class's login and
  registration go through `AuthenticationServiceImpl` and `UserServiceImpl`, which are modelled.
  The `emailVerifiedAt` field it writes does not exist on the user and is dropped.
- Database unique constraints on tag names and slugs are not modelled. Tags are looked up
  by their lower-cased name.
- Descriptive course fields (title text, descriptions, media URLs, level) are carried or left
  out; they never decide anything.
- `Enrollment.updateLastAccessed`, the read-only queries of the services, and their DTO mapping are not modelled.
- The `LessonProgress(user, lesson)` construction used by `ProgressServiceImpl` has no such
  constructor in the source. The model builds the builder's defaults instead.
- The `find` calls of the `@ValidPassword` validator are modelled as the character classes they
  look for.
- Tags.UsageStaysNonNegative: only covers runs that cannot reach the `int` maximum, because a wrap
  makes the count negative.
- CourseService.CourseServiceImpl.HandleTags: does not state that the tags it creates are new
  objects with a count of 0 (FindOrCreateTag states it for each tag).

The source is inconsistent with itself in these places; the model follows the code that runs:

- the user record has no `emailVerifiedAt`;
- `AuthService.verifyEmail` never checks the token's expiry, while
  `UserServiceImpl.verifyEmail` does;
- `UserProgress.updateProgress` rounds to a whole percent before scaling (33.00 % for one of three),
  while `ProgressServiceImpl` keeps two decimals for the enrollment percentage.

## Findings

| source | as written | input that shows it | evidently intended | confidence | as-written member | corrected member |
|---|---|---|---|---|---|---|
| backend/src/main/java/com/eduplatform/util/SecurityUtils.java:154-168 | `email.split("@")` drops trailing empty strings, so `parts[1]` does not exist | "ab@" or "@" | a masked address such as "***@" | not executed | SecurityUtils.MaskEmailThrowsOnTrailingAt | SecurityUtils.MaskEmailAgrees |
| backend/src/main/java/com/eduplatform/util/SecurityUtils.java:147-149 | `nextInt(999999)` draws 0 to 999998 | the code "999999" can never be produced | every six-digit code, `nextInt(1000000)` | not executed | SecurityUtils.NineNinesUnreachable | SecurityUtils.VerificationCodeBijective |
| backend/src/main/java/com/eduplatform/config/web/RateLimitingInterceptor.java:64 | `split(",")[0]` fails when the header is only commas, since the split is then empty; the filter at RateLimitingFilter.java:120 does the same | X-Forwarded-For: "," | the first (empty) entry, trimmed | not executed | ClientAddress.SingleCommaThrows | ClientAddress.FirstForwardedAgrees |
