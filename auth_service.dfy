/** The second authentication service: account checks before sign-in, registration checks,
    and the forgot/reset-password, email-verification and change-password flows.
    It names User accessors the entity does not declare; `getPassword`/`setPassword` are read
    as the password hash and `get/setPasswordResetTokenExpiry` as the reset-token expiry. */
module AuthService {
  import opened Wrappers
  import opened Time
  import Text
  import opened Users
  import Authentication

  const RESET_TOKEN_HOURS: int := 1

  datatype AuthServiceError =
    | BadRequest(message: string)
    | ResourceNotFound(message: string)
    | Unauthorized(message: string)
    | NullPointer

  // ---------------------------------------------------------------- pure checks

  /** `validateUserAccount`: INACTIVE, then SUSPENDED, then a current lock are refused, in
      that order; every other account passes. */
  function ValidateUserAccount(u: UserRecord, now: int): (r: Outcome<AuthServiceError>)
    ensures r.Pass? <==> u.status != INACTIVE && u.status != SUSPENDED && !u.IsAccountLocked(now)
    ensures u.status == INACTIVE ==> r == Fail(Unauthorized("Account is inactive. Please contact support."))
    ensures u.status == SUSPENDED ==> r == Fail(Unauthorized("Account is suspended. Please contact support."))
    ensures u.status != INACTIVE && u.status != SUSPENDED && u.IsAccountLocked(now) ==>
              r == Fail(Unauthorized("Account is temporarily locked. Please try again later."))
  {
    if u.status == INACTIVE then Fail(Unauthorized("Account is inactive. Please contact support."))
    else if u.status == SUSPENDED then Fail(Unauthorized("Account is suspended. Please contact support."))
    else if u.IsAccountLocked(now) then Fail(Unauthorized("Account is temporarily locked. Please try again later."))
    else Pass
  }

  /** Every account the other login path admits also passes this check. */
  lemma GrantedLoginPassesValidation(u: UserRecord, password: string, now: int)
    requires Authentication.LoginDecision(u, password, now) == Authentication.Granted
    ensures ValidateUserAccount(u, now).Pass?
  {
  }

  /** `validateRegistrationRequest`: the confirmation must match, then the terms must be
      accepted; a missing `acceptTerms` is unboxed and throws. */
  function ValidateRegistrationRequest(password: string, confirmPassword: string, acceptTerms: Option<bool>)
    : (r: Outcome<AuthServiceError>)
    ensures r.Pass? <==> password == confirmPassword && acceptTerms == Some(true)
    ensures password != confirmPassword ==> r == Fail(BadRequest("Passwords do not match"))
    ensures password == confirmPassword && acceptTerms == Some(false) ==>
              r == Fail(BadRequest("You must accept the terms and conditions"))
    ensures password == confirmPassword && acceptTerms.None? ==> r == Fail(NullPointer)
  {
    if password != confirmPassword then Fail(BadRequest("Passwords do not match"))
    else if acceptTerms.None? then Fail(NullPointer)
    else if !acceptTerms.value then Fail(BadRequest("You must accept the terms and conditions"))
    else Pass
  }

  // ---------------------------------------------------------------- the records each flow produces

  /** After `resetPassword`: a new hash and no reset token; unlike the user service, the
      failed-login counter and the lock are left as they were. */
  function ResetByToken(u: UserRecord, newPassword: string, salt: nat): (v: UserRecord)
    ensures Matches(newPassword, v.passwordHash)
    ensures v.passwordResetToken.None? && v.passwordResetExpiresAt.None?
    ensures v.LockState() == u.LockState() && v.status == u.status
  {
    u.(passwordHash := BCrypt(newPassword, salt), passwordResetToken := None, passwordResetExpiresAt := None)
  }

  /** After `verifyEmail` of an account that was not yet ACTIVE: ACTIVE and verified, with the
      token cleared; the expiry stays. */
  function EmailConfirmed(u: UserRecord): (v: UserRecord)
    ensures v.status == ACTIVE && v.IsEmailVerified() && v.emailVerificationToken.None?
    ensures v.emailVerificationExpiresAt == u.emailVerificationExpiresAt && v.LockState() == u.LockState()
  {
    u.(status := ACTIVE, emailVerified := Some(true), emailVerificationToken := None)
  }

  /** Confirming an account that is not locked makes it pass the account check, whatever its
      status was: confirmation sets it ACTIVE and verified. */
  lemma ConfirmedAccountPassesValidation(u: UserRecord, now: int)
    requires !u.IsAccountLocked(now)
    ensures ValidateUserAccount(EmailConfirmed(u), now).Pass?
  {
  }

  class AuthService {

    constructor ()
    {
    }

    /** `forgotPassword`: an unknown email is an error; otherwise a reset token valid for one
        hour. `found` is the user the email lookup (ignoring case) returned, or null. */
    method ForgotPassword(email: string, found: User?, token: string, now: int) returns (r: Outcome<AuthServiceError>)
      requires found != null ==> Text.Lower(found.email) == Text.Lower(email)
      modifies found
      ensures found == null ==> r == Fail(ResourceNotFound("User not found with this email"))
      ensures found != null ==>
                r == Pass && found.Snapshot() == old(found.Snapshot()).(passwordResetToken := Some(token),
                                                   passwordResetExpiresAt := Some(PlusHours(now, RESET_TOKEN_HOURS)))
    {
      if found == null {
        return Fail(ResourceNotFound("User not found with this email"));
      }
      found.SetPasswordResetToken(Some(token), Some(PlusHours(now, RESET_TOKEN_HOURS)));
      return Pass;
    }

    /** `resetPassword`. The confirmation is compared before the token is looked up; `found`
        is the user holding the token, or null. */
    method ResetPassword(token: string, newPassword: string, confirmPassword: string, found: User?, salt: nat, now: int)
      returns (r: Outcome<AuthServiceError>)
      requires found != null ==> found.passwordResetToken == Some(token)
      modifies found
      ensures newPassword != confirmPassword ==>
                r == Fail(BadRequest("Passwords do not match")) && (found != null ==> found.Snapshot() == old(found.Snapshot()))
      ensures newPassword == confirmPassword && found == null ==> r == Fail(BadRequest("Invalid or expired reset token"))
      ensures newPassword == confirmPassword && found != null ==>
                var expiry := old(found.passwordResetExpiresAt);
                (expiry.None? || expiry.value < now ==>
                   r == Fail(BadRequest("Reset token has expired")) && found.Snapshot() == old(found.Snapshot()))
                && (expiry.Some? && expiry.value >= now ==>
                   r == Pass && found.Snapshot() == ResetByToken(old(found.Snapshot()), newPassword, salt))
    {
      if newPassword != confirmPassword {
        return Fail(BadRequest("Passwords do not match"));
      }
      if found == null {
        return Fail(BadRequest("Invalid or expired reset token"));
      }
      if found.passwordResetExpiresAt.None? || found.passwordResetExpiresAt.value < now {
        return Fail(BadRequest("Reset token has expired"));
      }
      found.SetPassword(BCrypt(newPassword, salt), found.failedLoginAttempts);
      found.SetPasswordResetToken(None, None);
      return Pass;
    }

    /** `verifyEmail`. An ACTIVE account is reported as verified and left alone; any other
        account becomes ACTIVE and verified. The token's expiry is not consulted. */
    method VerifyEmail(token: string, found: User?) returns (r: Result<string, AuthServiceError>)
      requires found != null ==> found.emailVerificationToken == Some(token)
      modifies found
      ensures found == null ==> r == Failure(BadRequest("Invalid verification token"))
      ensures found != null && old(found.status) == ACTIVE ==>
                r == Success("Email is already verified") && found.Snapshot() == old(found.Snapshot())
      ensures found != null && old(found.status) != ACTIVE ==>
                r == Success("Email verified successfully") && found.Snapshot() == EmailConfirmed(old(found.Snapshot()))
    {
      if found == null {
        return Failure(BadRequest("Invalid verification token"));
      }
      if found.status == ACTIVE {
        return Success("Email is already verified");
      }
      found.SetVerifiedStatus(Some(true), ACTIVE);
      found.SetEmailVerificationToken(None, found.emailVerificationExpiresAt);
      return Success("Email verified successfully");
    }

    /** `changePassword`: confirmation first, then the lookup, then the current password. */
    method ChangePassword(userEmail: string, currentPassword: string, newPassword: string, confirmPassword: string,
                          found: User?, salt: nat) returns (r: Outcome<AuthServiceError>)
      requires found != null ==> Text.Lower(found.email) == Text.Lower(userEmail)
      modifies found
      ensures newPassword != confirmPassword ==>
                r == Fail(BadRequest("Passwords do not match")) && (found != null ==> found.Snapshot() == old(found.Snapshot()))
      ensures newPassword == confirmPassword && found == null ==> r == Fail(ResourceNotFound("User not found"))
      ensures newPassword == confirmPassword && found != null && !Matches(currentPassword, old(found.passwordHash)) ==>
                r == Fail(BadRequest("Current password is incorrect")) && found.Snapshot() == old(found.Snapshot())
      ensures newPassword == confirmPassword && found != null && Matches(currentPassword, old(found.passwordHash)) ==>
                r == Pass && found.Snapshot() == old(found.Snapshot()).(passwordHash := BCrypt(newPassword, salt))
    {
      if newPassword != confirmPassword {
        return Fail(BadRequest("Passwords do not match"));
      }
      if found == null {
        return Fail(ResourceNotFound("User not found"));
      }
      if !Matches(currentPassword, found.passwordHash) {
        return Fail(BadRequest("Current password is incorrect"));
      }
      found.SetPassword(BCrypt(newPassword, salt), found.failedLoginAttempts);
      return Pass;
    }
  }

  /** A reset token works once: replaying it after a successful reset finds no user. The
      repository here holds the single user `u`. */
  method ResetReplay(s: AuthService, token: string, newPassword: string, u: User, salt: nat, now: int)
    returns (first: Outcome<AuthServiceError>, second: Outcome<AuthServiceError>)
    requires u.passwordResetToken == Some(token)
    modifies u
    ensures first.Pass? ==> second == Fail(BadRequest("Invalid or expired reset token"))
  {
    first := s.ResetPassword(token, newPassword, newPassword, u, salt, now);
    var holder: User? := if u.passwordResetToken == Some(token) then u else null;
    second := s.ResetPassword(token, newPassword, newPassword, holder, salt, now);
  }
}
