/** The user entity: its status and role, the failed-login counter and lock, and the
    one-time verification and reset tokens. */
module Users {
  import opened Wrappers
  import opened Time
  import JavaInt

  datatype UserStatus = ACTIVE | INACTIVE | SUSPENDED | PENDING_VERIFICATION | DELETED

  datatype UserRole = STUDENT | INSTRUCTOR | ADMIN | SUPER_ADMIN

  /** A BCrypt hash. Matching succeeds exactly for the password the hash was made from;
      `salt` stands for the random salt, so two hashes of one password may differ. */
  datatype PasswordHash = BCrypt(plain: string, salt: nat)

  predicate Matches(raw: string, h: PasswordHash) {
    h.plain == raw
  }

  // ---------------------------------------------------------------- lockout

  const MAX_FAILED_ATTEMPTS: int := 5
  const LOCK_DURATION_MINUTES: int := 30

  /** The two user fields that the lockout rules read and write. */
  datatype Lockout = Lockout(failedAttempts: int, lockedUntil: Option<int>)

  /** `isAccountLocked`: there is a lock and it ends strictly after `now`. */
  predicate IsLocked(l: Lockout, now: int) {
    l.lockedUntil.Some? && l.lockedUntil.value > now
  }

  /** One failed login: the Java `int` counter goes up by one (wrapping at 2^31) and, once it
      reaches the threshold, the account is locked for 30 minutes from `now`. */
  function AfterFailure(l: Lockout, now: int): (r: Lockout)
    requires JavaInt.IsInt32(l.failedAttempts)
    ensures JavaInt.IsInt32(r.failedAttempts)
    ensures l.failedAttempts < JavaInt.INT_MAX ==> r.failedAttempts == l.failedAttempts + 1
    ensures r.failedAttempts >= MAX_FAILED_ATTEMPTS ==>
              r.lockedUntil == Some(PlusMinutes(now, LOCK_DURATION_MINUTES))
              && forall t :: t < PlusMinutes(now, LOCK_DURATION_MINUTES) ==> IsLocked(r, t)
    ensures r.failedAttempts < MAX_FAILED_ATTEMPTS ==> r.lockedUntil == l.lockedUntil
  {
    var n := JavaInt.Wrap32(l.failedAttempts + 1);
    if n >= MAX_FAILED_ATTEMPTS then Lockout(n, Some(PlusMinutes(now, LOCK_DURATION_MINUTES)))
    else Lockout(n, l.lockedUntil)
  }

  /** A successful login: a positive counter is reset together with the lock; a counter of
      zero (or below) leaves both fields as they were. */
  function AfterSuccess(l: Lockout): (r: Lockout)
    ensures l.failedAttempts > 0 ==> r == Lockout(0, None)
    ensures l.failedAttempts <= 0 ==> r == l
    ensures forall t :: !IsLocked(r, t) || IsLocked(l, t)
  {
    if l.failedAttempts > 0 then Lockout(0, None) else l
  }

  /** The lockout state after a run of failed logins at the given times. */
  function Failures(l: Lockout, times: seq<int>): (r: Lockout)
    requires JavaInt.IsInt32(l.failedAttempts)
    ensures JavaInt.IsInt32(r.failedAttempts)
  {
    if |times| == 0 then l
    else AfterFailure(Failures(l, times[..|times| - 1]), times[|times| - 1])
  }

  /** From a zero counter, n failures leave the counter at n; the lock is untouched until the
      fifth, and from then on ends 30 minutes after the latest failure. */
  lemma {:induction false} FailuresFromZero(l: Lockout, times: seq<int>)
    requires l.failedAttempts == 0 && |times| < JavaInt.INT_MAX
    ensures Failures(l, times).failedAttempts == |times|
    ensures |times| < MAX_FAILED_ATTEMPTS ==> Failures(l, times).lockedUntil == l.lockedUntil
    ensures |times| >= MAX_FAILED_ATTEMPTS ==>
              Failures(l, times).lockedUntil == Some(PlusMinutes(times[|times| - 1], LOCK_DURATION_MINUTES))
  {
    if |times| > 0 {
      FailuresFromZero(l, times[..|times| - 1]);
    }
  }

  /** Five consecutive failures from a zero counter lock the account until 30 minutes after
      the fifth, and no longer. */
  lemma FiveFailuresLock(l: Lockout, times: seq<int>, now: int)
    requires l.failedAttempts == 0 && |times| == MAX_FAILED_ATTEMPTS
    ensures IsLocked(Failures(l, times), now) <==> now < PlusMinutes(times[4], LOCK_DURATION_MINUTES)
  {
    FailuresFromZero(l, times);
  }

  /** Fewer than five failures from a zero counter never lock an unlocked account. */
  lemma FewFailuresDoNotLock(l: Lockout, times: seq<int>, now: int)
    requires l == Lockout(0, None) && |times| < MAX_FAILED_ATTEMPTS
    ensures !IsLocked(Failures(l, times), now)
  {
    FailuresFromZero(l, times);
  }

  // ---------------------------------------------------------------- the user record

  /** Every persistent field of a user, as one value. */
  datatype UserRecord = UserRecord(
    id: string,
    email: string,
    passwordHash: PasswordHash,
    firstName: string,
    lastName: string,
    role: UserRole,
    status: UserStatus,
    phoneNumber: Option<string>,
    profilePictureUrl: Option<string>,
    bio: Option<string>,
    timezone: Option<string>,
    language: Option<string>,
    emailVerified: Option<bool>,
    emailVerificationToken: Option<string>,
    emailVerificationExpiresAt: Option<int>,
    passwordResetToken: Option<string>,
    passwordResetExpiresAt: Option<int>,
    lastLoginAt: Option<int>,
    failedLoginAttempts: int,
    accountLockedUntil: Option<int>,
    deletedAt: Option<int>)
  {
    /** `isActive`: ACTIVE and not soft-deleted. */
    predicate IsActive() {
      status == ACTIVE && deletedAt.None?
    }

    /** `isAccountLocked`: the lock kept in the record runs past `now`. */
    predicate IsAccountLocked(now: int)
      ensures IsAccountLocked(now) <==> accountLockedUntil.Some? && now < accountLockedUntil.value
    {
      IsLocked(LockState(), now)
    }

    /** `isEmailVerified`: a null flag counts as not verified. */
    predicate IsEmailVerified() {
      emailVerified == Some(true)
    }

    function LockState(): Lockout {
      Lockout(failedLoginAttempts, accountLockedUntil)
    }

    function WithLockState(l: Lockout): UserRecord {
      this.(failedLoginAttempts := l.failedAttempts, accountLockedUntil := l.lockedUntil)
    }

    /** The shape every stored user keeps: the counter fits a Java `int`. */
    predicate Valid() {
      JavaInt.IsInt32(failedLoginAttempts)
    }
  }

  /** A user row with the builder's defaults for every field the caller does not set. */
  function NewRecord(id: string, email: string, hash: PasswordHash, firstName: string,
                     lastName: string, role: UserRole): (u: UserRecord)
    ensures u.Valid() && u.IsActive() && !u.IsEmailVerified()
    ensures u.failedLoginAttempts == 0 && forall now :: !u.IsAccountLocked(now)
    ensures u.emailVerificationToken.None? && u.passwordResetToken.None?
  {
    UserRecord(id, email, hash, firstName, lastName, role, ACTIVE, None, None, None,
               Some("UTC"), Some("en"), Some(false), None, None, None, None, None, 0, None, None)
  }

  /** The soft-deleted copy of a user. */
  function SoftDeleted(u: UserRecord, now: int): (r: UserRecord)
    ensures r.status == DELETED && r.deletedAt == Some(now) && !r.IsActive()
    ensures r.LockState() == u.LockState() && r.email == u.email && r.passwordHash == u.passwordHash
  {
    u.(deletedAt := Some(now), status := DELETED)
  }

  /** A user as the persistence layer holds it; services update it in place. */
  class User {
    var id: string
    var email: string
    var passwordHash: PasswordHash
    var firstName: string
    var lastName: string
    var role: UserRole
    var status: UserStatus
    var phoneNumber: Option<string>
    var profilePictureUrl: Option<string>
    var bio: Option<string>
    var timezone: Option<string>
    var language: Option<string>
    var emailVerified: Option<bool>
    var emailVerificationToken: Option<string>
    var emailVerificationExpiresAt: Option<int>
    var passwordResetToken: Option<string>
    var passwordResetExpiresAt: Option<int>
    var lastLoginAt: Option<int>
    var failedLoginAttempts: int
    var accountLockedUntil: Option<int>
    var deletedAt: Option<int>

    function Snapshot(): UserRecord
      reads this
    {
      UserRecord(id, email, passwordHash, firstName, lastName, role, status, phoneNumber,
                 profilePictureUrl, bio, timezone, language, emailVerified, emailVerificationToken,
                 emailVerificationExpiresAt, passwordResetToken, passwordResetExpiresAt,
                 lastLoginAt, failedLoginAttempts, accountLockedUntil, deletedAt)
    }

    /** `User.builder()...build()` with the given fields set and the defaults elsewhere. */
    constructor (id: string, email: string, hash: PasswordHash, firstName: string,
                 lastName: string, role: UserRole)
      ensures Snapshot() == NewRecord(id, email, hash, firstName, lastName, role)
    {
      this.id := id;
      this.email := email;
      this.passwordHash := hash;
      this.firstName := firstName;
      this.lastName := lastName;
      this.role := role;
      status := ACTIVE;
      phoneNumber := None;
      profilePictureUrl := None;
      bio := None;
      timezone := Some("UTC");
      language := Some("en");
      emailVerified := Some(false);
      emailVerificationToken := None;
      emailVerificationExpiresAt := None;
      passwordResetToken := None;
      passwordResetExpiresAt := None;
      lastLoginAt := None;
      failedLoginAttempts := 0;
      accountLockedUntil := None;
      deletedAt := None;
    }

    /** A builder call that sets every field. */
    constructor FromRecord(r: UserRecord)
      ensures Snapshot() == r
    {
      id, email, passwordHash, firstName, lastName, role, status := r.id, r.email, r.passwordHash, r.firstName, r.lastName, r.role, r.status;
      phoneNumber, profilePictureUrl, bio, timezone, language := r.phoneNumber, r.profilePictureUrl, r.bio, r.timezone, r.language;
      emailVerified, emailVerificationToken, emailVerificationExpiresAt := r.emailVerified, r.emailVerificationToken, r.emailVerificationExpiresAt;
      passwordResetToken, passwordResetExpiresAt, lastLoginAt := r.passwordResetToken, r.passwordResetExpiresAt, r.lastLoginAt;
      failedLoginAttempts, accountLockedUntil, deletedAt := r.failedLoginAttempts, r.accountLockedUntil, r.deletedAt;
    }

    /** Overwrites the name fields. */
    method SetNames(firstName: string, lastName: string)
      modifies this
      ensures Snapshot() == old(Snapshot()).(firstName := firstName, lastName := lastName)
    {
      this.firstName := firstName;
      this.lastName := lastName;
    }

    /** Overwrites the phone number and the biography. */
    method SetContact(phoneNumber: Option<string>, bio: Option<string>)
      modifies this
      ensures Snapshot() == old(Snapshot()).(phoneNumber := phoneNumber, bio := bio)
    {
      this.phoneNumber := phoneNumber;
      this.bio := bio;
    }

    /** Overwrites the time zone and the language. */
    method SetLocale(timezone: Option<string>, language: Option<string>)
      modifies this
      ensures Snapshot() == old(Snapshot()).(timezone := timezone, language := language)
    {
      this.timezone := timezone;
      this.language := language;
    }

    /** Overwrites the verification flag and the status. */
    method SetVerifiedStatus(emailVerified: Option<bool>, status: UserStatus)
      modifies this
      ensures Snapshot() == old(Snapshot()).(emailVerified := emailVerified, status := status)
    {
      this.emailVerified := emailVerified;
      this.status := status;
    }

    /** Overwrites the email-verification token and its expiry. */
    method SetEmailVerificationToken(token: Option<string>, expiresAt: Option<int>)
      modifies this
      ensures Snapshot() == old(Snapshot()).(emailVerificationToken := token, emailVerificationExpiresAt := expiresAt)
    {
      emailVerificationToken := token;
      emailVerificationExpiresAt := expiresAt;
    }

    /** Overwrites the password-reset token and its expiry. */
    method SetPasswordResetToken(token: Option<string>, expiresAt: Option<int>)
      modifies this
      ensures Snapshot() == old(Snapshot()).(passwordResetToken := token, passwordResetExpiresAt := expiresAt)
    {
      passwordResetToken := token;
      passwordResetExpiresAt := expiresAt;
    }

    /** Overwrites the password hash and the failed-login counter. */
    method SetPassword(hash: PasswordHash, failedAttempts: int)
      modifies this
      ensures Snapshot() == old(Snapshot()).(passwordHash := hash, failedLoginAttempts := failedAttempts)
    {
      passwordHash := hash;
      failedLoginAttempts := failedAttempts;
    }

    /** Overwrites the counter and the lock. */
    method SetLockState(l: Lockout)
      modifies this
      ensures Snapshot() == old(Snapshot()).WithLockState(l)
    {
      failedLoginAttempts := l.failedAttempts;
      accountLockedUntil := l.lockedUntil;
    }

    method SetLastLoginAt(now: int)
      modifies this
      ensures Snapshot() == old(Snapshot()).(lastLoginAt := Some(now))
    {
      lastLoginAt := Some(now);
    }

    /** `softDelete`: stamps the deletion time and marks the user DELETED. */
    method SoftDelete(now: int)
      modifies this
      ensures Snapshot() == SoftDeleted(old(Snapshot()), now)
      ensures !Snapshot().IsActive()
    {
      deletedAt := Some(now);
      status := DELETED;
    }
  }
}
