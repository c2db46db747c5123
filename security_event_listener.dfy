/** The listener for Spring Security's authentication events: a success resets the
    failed-login counter, a failure adds to it and locks the account at the threshold. */
module SecurityEvents {
  import opened Wrappers
  import Text
  import opened Users
  import SecurityUtils

  class SecurityEventListener {

    constructor ()
    {
    }

    /** `handleAuthenticationSuccess`. `found` is the user the email lookup (ignoring case)
        returned for the authenticated name, or null, in which case nothing happens. The log
        line's `maskEmail(username)` runs first; when it throws, the user is not touched. */
    method HandleAuthenticationSuccess(username: string, found: User?) returns (r: Outcome<string>)
      requires found != null ==> Text.Lower(found.email) == Text.Lower(username)
      modifies found
      ensures SecurityUtils.MaskEmailAsWritten(Some(username)).Failure? ==>
                r == Fail(SecurityUtils.MaskEmailAsWritten(Some(username)).error)
                && (found != null ==> found.Snapshot() == old(found.Snapshot()))
      ensures SecurityUtils.MaskEmailAsWritten(Some(username)).Success? ==> r == Pass
      ensures r.Pass? && found != null ==>
                found.Snapshot() == old(found.Snapshot()).WithLockState(AfterSuccess(old(found.Snapshot()).LockState()))
      ensures found != null && old(found.failedLoginAttempts) <= 0 ==> found.Snapshot() == old(found.Snapshot())
    {
      var masked := SecurityUtils.MaskEmailAsWritten(Some(username));
      if masked.Failure? {
        return Fail(masked.error);
      }
      if found != null {
        if found.failedLoginAttempts > 0 {
          found.SetLockState(Lockout(0, None));
        }
      }
      r := Pass;
    }

    /** `handleAuthenticationFailure`: one more failed attempt for the named user, if any.
        The warning's `maskEmail(username)` runs before the lookup; when it throws, the user is
        not touched. The second masking, logged after a lock, takes the same argument and so
        cannot throw once the first has not. */
    method HandleAuthenticationFailure(username: string, found: User?, now: int) returns (r: Outcome<string>)
      requires found != null ==> Text.Lower(found.email) == Text.Lower(username) && found.Snapshot().Valid()
      modifies found
      ensures SecurityUtils.MaskEmailAsWritten(Some(username)).Failure? ==>
                r == Fail(SecurityUtils.MaskEmailAsWritten(Some(username)).error)
                && (found != null ==> found.Snapshot() == old(found.Snapshot()))
      ensures SecurityUtils.MaskEmailAsWritten(Some(username)).Success? ==> r == Pass
      ensures r.Pass? && found != null ==>
                found.Snapshot() == old(found.Snapshot()).WithLockState(AfterFailure(old(found.Snapshot()).LockState(), now))
      ensures found != null ==> found.Snapshot().Valid()
    {
      var masked := SecurityUtils.MaskEmailAsWritten(Some(username));
      if masked.Failure? {
        return Fail(masked.error);
      }
      if found != null {
        found.SetLockState(AfterFailure(found.Snapshot().LockState(), now));
      }
      r := Pass;
    }

    /** `handleLogoutSuccess`: it only logs, so its one effect is the exception `maskEmail`
        throws for the names that method cannot mask. */
    method HandleLogoutSuccess(username: string) returns (r: Outcome<string>)
      ensures r.Pass? <==> SecurityUtils.MaskEmailAsWritten(Some(username)).Success?
      ensures r.Fail? ==> r.error == SecurityUtils.MaskEmailAsWritten(Some(username)).error
    {
      var masked := SecurityUtils.MaskEmailAsWritten(Some(username));
      r := if masked.Failure? then Fail(masked.error) else Pass;
    }
  }
}
