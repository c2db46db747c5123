/** Account life cycle in the user service: registration with an email-verification token,
    verification, password reset by one-time token, password change and profile updates.
    Repository lookups are parameters (`found`), as are the random token and BCrypt salt. */
module UserService {
  import opened Wrappers
  import opened Time
  import Text
  import opened Users
  import Authentication

  const VERIFICATION_TOKEN_HOURS: int := 24
  const RESET_TOKEN_HOURS: int := 1

  datatype UserError =
    | DuplicateResource(field: string, value: string)
    | ResourceNotFound(field: string, value: string)
    | ValidationError(message: string)
    | InvalidOperation(message: string)
    | NullPointer

  datatype RegistrationRequest = RegistrationRequest(
    email: string, password: string, firstName: string, lastName: string,
    phoneNumber: Option<string>, bio: Option<string>, timezone: Option<string>, language: Option<string>)

  datatype ProfileUpdate = ProfileUpdate(
    firstName: Option<string>, lastName: Option<string>, phoneNumber: Option<string>,
    bio: Option<string>, timezone: Option<string>, language: Option<string>)

  /** `existsByEmailIgnoreCase` over the stored emails. */
  predicate EmailTaken(existing: set<string>, email: string) {
    exists e :: e in existing && Text.Lower(e) == Text.Lower(email)
  }

  // ---------------------------------------------------------------- the records each step produces

  /** The row `register` builds. */
  function Registered(id: string, req: RegistrationRequest, salt: nat, token: string, now: int): (u: UserRecord)
    ensures u.Valid() && u.status == INACTIVE && !u.IsActive() && !u.IsEmailVerified()
    ensures u.email == Text.Lower(req.email) && u.role == STUDENT && Matches(req.password, u.passwordHash)
    ensures u.emailVerificationToken == Some(token)
    ensures u.emailVerificationExpiresAt == Some(PlusHours(now, VERIFICATION_TOKEN_HOURS))
    ensures u.failedLoginAttempts == 0 && forall t :: !u.IsAccountLocked(t)
  {
    NewRecord(id, Text.Lower(req.email), BCrypt(req.password, salt), req.firstName, req.lastName, STUDENT)
      .(phoneNumber := req.phoneNumber, bio := req.bio,
        timezone := Some(req.timezone.GetOr("UTC")), language := Some(req.language.GetOr("en")),
        status := INACTIVE, emailVerified := Some(false),
        emailVerificationToken := Some(token),
        emailVerificationExpiresAt := Some(PlusHours(now, VERIFICATION_TOKEN_HOURS)))
  }

  /** The row after a successful `verifyEmail`. */
  function Verified(u: UserRecord): (v: UserRecord)
    ensures v.IsEmailVerified() && v.status == ACTIVE
    ensures v.emailVerificationToken.None? && v.emailVerificationExpiresAt.None?
    ensures v.LockState() == u.LockState() && v.deletedAt == u.deletedAt && v.passwordHash == u.passwordHash
  {
    u.(emailVerified := Some(true), status := ACTIVE, emailVerificationToken := None, emailVerificationExpiresAt := None)
  }

  /** The row after a successful `resetPassword`. The lock itself is left in place. */
  function PasswordReset(u: UserRecord, newPassword: string, salt: nat): (v: UserRecord)
    ensures Matches(newPassword, v.passwordHash)
    ensures v.passwordResetToken.None? && v.passwordResetExpiresAt.None? && v.failedLoginAttempts == 0
    ensures v.accountLockedUntil == u.accountLockedUntil && v.status == u.status
  {
    u.(passwordHash := BCrypt(newPassword, salt), passwordResetToken := None, passwordResetExpiresAt := None,
       failedLoginAttempts := 0)
  }

  /** `updateProfile`: each field present in the request replaces the stored one. */
  function ApplyProfile(u: UserRecord, req: ProfileUpdate): (v: UserRecord)
    ensures req.firstName.Some? ==> v.firstName == req.firstName.value
    ensures req.firstName.None? ==> v.firstName == u.firstName
    ensures req.lastName.Some? ==> v.lastName == req.lastName.value
    ensures req.lastName.None? ==> v.lastName == u.lastName
    ensures req.phoneNumber.Some? ==> v.phoneNumber == req.phoneNumber
    ensures req.phoneNumber.None? ==> v.phoneNumber == u.phoneNumber
    ensures req.bio.Some? ==> v.bio == req.bio
    ensures req.bio.None? ==> v.bio == u.bio
    ensures req.timezone.Some? ==> v.timezone == req.timezone
    ensures req.timezone.None? ==> v.timezone == u.timezone
    ensures req.language.Some? ==> v.language == req.language
    ensures req.language.None? ==> v.language == u.language
    ensures v.(firstName := u.firstName, lastName := u.lastName, phoneNumber := u.phoneNumber, bio := u.bio,
               timezone := u.timezone, language := u.language) == u
  {
    u.(firstName := if req.firstName.Some? then req.firstName.value else u.firstName,
       lastName := if req.lastName.Some? then req.lastName.value else u.lastName,
       phoneNumber := if req.phoneNumber.Some? then req.phoneNumber else u.phoneNumber,
       bio := if req.bio.Some? then req.bio else u.bio,
       timezone := if req.timezone.Some? then req.timezone else u.timezone,
       language := if req.language.Some? then req.language else u.language)
  }

  /** An empty request changes nothing, and applying the same request twice is applying it once. */
  lemma ApplyProfileIdempotent(u: UserRecord, req: ProfileUpdate)
    ensures ApplyProfile(u, ProfileUpdate(None, None, None, None, None, None)) == u
    ensures ApplyProfile(ApplyProfile(u, req), req) == ApplyProfile(u, req)
  {
  }

  // ---------------------------------------------------------------- life-cycle properties

  /** A freshly registered account cannot log in, whatever the password. */
  lemma RegisteredCannotLogIn(id: string, req: RegistrationRequest, salt: nat, token: string,
                              now: int, password: string, t: int)
    ensures Authentication.LoginDecision(Registered(id, req, salt, token, now), password, t) == Authentication.NotUsable
  {
  }

  /** Once its email is verified, a registered account logs in with the password it was
      registered with, and only with that one. */
  lemma VerifiedAccountLogsIn(id: string, req: RegistrationRequest, salt: nat, token: string,
                              now: int, password: string, t: int)
    ensures var u := Verified(Registered(id, req, salt, token, now));
            Authentication.LoginDecision(u, password, t) == Authentication.Granted <==> password == req.password
  {
  }

  /** After a reset the new password logs in as long as the account is active, verified and
      not under a lock. */
  lemma ResetPasswordLogsIn(u: UserRecord, newPassword: string, salt: nat, t: int)
    requires u.IsActive() && u.IsEmailVerified() && !u.IsAccountLocked(t)
    ensures Authentication.LoginDecision(PasswordReset(u, newPassword, salt), newPassword, t) == Authentication.Granted
  {
  }

  // ---------------------------------------------------------------- the service

  class UserServiceImpl {

    constructor ()
    {
    }

    /** `register`. `existing` holds the stored emails; `id`, `salt` and `token` stand for the
        generated id, BCrypt salt and UUID. */
    method Register(req: RegistrationRequest, existing: set<string>, id: string, salt: nat, token: string, now: int)
      returns (r: Result<User, UserError>)
      ensures EmailTaken(existing, req.email) ==> r == Failure(DuplicateResource("email", req.email))
      ensures !EmailTaken(existing, req.email) ==>
                r.Success? && fresh(r.value) && r.value.Snapshot() == Registered(id, req, salt, token, now)
    {
      if EmailTaken(existing, req.email) {
        return Failure(DuplicateResource("email", req.email));
      }
      var user := new User.FromRecord(Registered(id, req, salt, token, now));
      return Success(user);
    }

    /** `verifyEmail`. `found` is the user holding this verification token, or null. */
    method VerifyEmail(token: string, found: User?, now: int) returns (r: Result<bool, UserError>)
      requires found != null ==> found.emailVerificationToken == Some(token)
      modifies found
      ensures found == null ==> r == Success(false)
      ensures found != null && old(found.emailVerificationExpiresAt).None? ==>
                r == Failure(NullPointer) && found.Snapshot() == old(found.Snapshot())
      ensures found != null && old(found.emailVerificationExpiresAt).Some? ==>
                var expiry := old(found.emailVerificationExpiresAt).value;
                (expiry < now ==> r == Success(false) && found.Snapshot() == old(found.Snapshot()))
                && (expiry >= now ==> r == Success(true) && found.Snapshot() == Verified(old(found.Snapshot())))
    {
      if found == null {
        return Success(false);
      }
      if found.emailVerificationExpiresAt.None? {
        return Failure(NullPointer);
      }
      if found.emailVerificationExpiresAt.value < now {
        return Success(false);
      }
      found.SetVerifiedStatus(Some(true), ACTIVE);
      found.SetEmailVerificationToken(None, None);
      return Success(true);
    }

    /** `resendVerificationEmail`: a new token valid for 24 hours, unless already verified. */
    method ResendVerificationEmail(email: string, found: User?, token: string, now: int) returns (r: Outcome<UserError>)
      requires found != null ==> Text.Lower(found.email) == Text.Lower(email)
      modifies found
      ensures found == null ==> r == Fail(ResourceNotFound("email", email))
      ensures found != null && old(found.emailVerified).None? ==> r == Fail(NullPointer) && found.Snapshot() == old(found.Snapshot())
      ensures found != null && old(found.emailVerified) == Some(true) ==>
                r == Fail(InvalidOperation("Email is already verified")) && found.Snapshot() == old(found.Snapshot())
      ensures found != null && old(found.emailVerified) == Some(false) ==>
                r == Pass && found.Snapshot() == old(found.Snapshot()).(emailVerificationToken := Some(token),
                                                   emailVerificationExpiresAt := Some(PlusHours(now, VERIFICATION_TOKEN_HOURS)))
    {
      if found == null {
        return Fail(ResourceNotFound("email", email));
      }
      if found.emailVerified.None? {
        return Fail(NullPointer);
      }
      if found.emailVerified.value {
        return Fail(InvalidOperation("Email is already verified"));
      }
      found.SetEmailVerificationToken(Some(token), Some(PlusHours(now, VERIFICATION_TOKEN_HOURS)));
      return Pass;
    }

    /** `initiatePasswordReset`: an unknown email is ignored silently; otherwise a reset token
        valid for one hour. */
    method InitiatePasswordReset(email: string, found: User?, token: string, now: int)
      requires found != null ==> Text.Lower(found.email) == Text.Lower(email)
      modifies found
      ensures found != null ==>
                found.Snapshot() == old(found.Snapshot()).(passwordResetToken := Some(token),
                                                          passwordResetExpiresAt := Some(PlusHours(now, RESET_TOKEN_HOURS)))
    {
      if found == null {
        return;
      }
      found.SetPasswordResetToken(Some(token), Some(PlusHours(now, RESET_TOKEN_HOURS)));
    }

    /** `resetPassword`. `found` is the user holding this reset token, or null. */
    method ResetPassword(token: string, newPassword: string, found: User?, salt: nat, now: int) returns (r: Outcome<UserError>)
      requires found != null ==> found.passwordResetToken == Some(token)
      modifies found
      ensures found == null ==> r == Fail(ValidationError("Invalid or expired reset token"))
      ensures found != null && old(found.passwordResetExpiresAt).None? ==>
                r == Fail(NullPointer) && found.Snapshot() == old(found.Snapshot())
      ensures found != null && old(found.passwordResetExpiresAt).Some? ==>
                var expiry := old(found.passwordResetExpiresAt).value;
                (expiry < now ==> r == Fail(ValidationError("Reset token has expired")) && found.Snapshot() == old(found.Snapshot()))
                && (expiry >= now ==> r == Pass && found.Snapshot() == PasswordReset(old(found.Snapshot()), newPassword, salt))
    {
      if found == null {
        return Fail(ValidationError("Invalid or expired reset token"));
      }
      if found.passwordResetExpiresAt.None? {
        return Fail(NullPointer);
      }
      if found.passwordResetExpiresAt.value < now {
        return Fail(ValidationError("Reset token has expired"));
      }
      found.SetPassword(BCrypt(newPassword, salt), 0);
      found.SetPasswordResetToken(None, None);
      return Pass;
    }

    /** `changePassword`: the current password must match, then the confirmation. */
    method ChangePassword(userId: string, currentPassword: string, newPassword: string, confirmPassword: string,
                          found: User?, salt: nat) returns (r: Outcome<UserError>)
      requires found != null ==> found.id == userId
      modifies found
      ensures found == null ==> r == Fail(ResourceNotFound("id", userId))
      ensures found != null && !Matches(currentPassword, old(found.passwordHash)) ==>
                r == Fail(ValidationError("Current password is incorrect")) && found.Snapshot() == old(found.Snapshot())
      ensures found != null && Matches(currentPassword, old(found.passwordHash)) && newPassword != confirmPassword ==>
                r == Fail(ValidationError("New password and confirmation do not match")) && found.Snapshot() == old(found.Snapshot())
      ensures found != null && Matches(currentPassword, old(found.passwordHash)) && newPassword == confirmPassword ==>
                r == Pass && found.Snapshot() == old(found.Snapshot()).(passwordHash := BCrypt(newPassword, salt), failedLoginAttempts := 0)
    {
      if found == null {
        return Fail(ResourceNotFound("id", userId));
      }
      if !Matches(currentPassword, found.passwordHash) {
        return Fail(ValidationError("Current password is incorrect"));
      }
      if newPassword != confirmPassword {
        return Fail(ValidationError("New password and confirmation do not match"));
      }
      found.SetPassword(BCrypt(newPassword, salt), 0);
      return Pass;
    }

    /** `updateProfile`. */
    method UpdateProfile(userId: string, req: ProfileUpdate, found: User?) returns (r: Outcome<UserError>)
      requires found != null ==> found.id == userId
      modifies found
      ensures found == null ==> r == Fail(ResourceNotFound("id", userId))
      ensures found != null ==> r == Pass && found.Snapshot() == ApplyProfile(old(found.Snapshot()), req)
    {
      if found == null {
        return Fail(ResourceNotFound("id", userId));
      }
      var v := ApplyProfile(found.Snapshot(), req);
      found.SetNames(v.firstName, v.lastName);
      found.SetContact(v.phoneNumber, v.bio);
      found.SetLocale(v.timezone, v.language);
      return Pass;
    }
  }

  /** A verification token works once: after a successful verification the token is cleared,
      so the same token finds no user and verifies nothing. The repository here holds the
      single user `u`. */
  method VerifyEmailReplay(s: UserServiceImpl, token: string, u: User, now: int)
    returns (first: Result<bool, UserError>, second: Result<bool, UserError>)
    requires u.emailVerificationToken == Some(token)
    modifies u
    ensures first == Success(true) ==> second == Success(false)
  {
    first := s.VerifyEmail(token, u, now);
    var holder: User? := if u.emailVerificationToken == Some(token) then u else null;
    second := s.VerifyEmail(token, holder, now);
  }
}
