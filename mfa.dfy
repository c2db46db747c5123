/** One-time MFA codes, kept in the key-value store under "mfa:<email>" for five minutes. */
module Mfa {
  import opened Wrappers
  import opened Time
  import TtlStore
  import SecurityUtils

  const MFA_TOKEN_PREFIX: string := "mfa:"
  const MFA_TOKEN_EXPIRY_MINUTES: int := 5

  function MfaKey(email: string): string {
    MFA_TOKEN_PREFIX + email
  }

  /** The remaining lifetime `getMfaTokenTtl` reports: the store's answer in seconds, which is
      -2 when there is no pending code. */
  function MfaTokenTtl(store: TtlStore.Store<string>, email: string, now: int): (s: int)
    ensures s == -2 <==> !TtlStore.HasKey(store, MfaKey(email), now)
    ensures TtlStore.HasKey(store, MfaKey(email), now) ==> 0 <= s
  {
    TtlStore.TtlSeconds(store, MfaKey(email), now)
  }

  /** Codes written by this service never report more than the five-minute lifetime. */
  lemma TtlAtMostFiveMinutes(store: TtlStore.Store<string>, email: string, code: string, written: int, now: int)
    requires written <= now
    ensures MfaTokenTtl(TtlStore.Set(store, MfaKey(email), code, written, MFA_TOKEN_EXPIRY_MINUTES * MINUTE_MS),
                        email, now) <= 300
  {
  }

  /** Truncation makes a code that is still pending report 0 seconds during its last second. */
  lemma PendingCodeReportsZeroInLastSecond(store: TtlStore.Store<string>, email: string, code: string, written: int)
    ensures var s := TtlStore.Set(store, MfaKey(email), code, written, MFA_TOKEN_EXPIRY_MINUTES * MINUTE_MS);
            TtlStore.HasKey(s, MfaKey(email), written + 299500) && MfaTokenTtl(s, email, written + 299500) == 0
  {
  }

  class MfaService {
    /** The `mfa:` keys of the key-value store. */
    var store: TtlStore.Store<string>

    constructor ()
      ensures store == map[]
    {
      store := map[];
    }

    /** The exception the log line's `maskEmail(email)` throws, if any. Every operation below
        that logs evaluates it after its store update; the `catch` blocks evaluate it again,
        so the exception leaves the method with the update already made. */
    function LogFailure(email: string): (r: Option<string>)
      ensures r.Some? <==> SecurityUtils.MaskEmailAsWritten(Some(email)).Failure?
      ensures r.Some? ==> r.value == SecurityUtils.MaskEmailAsWritten(Some(email)).error
    {
      match SecurityUtils.MaskEmailAsWritten(Some(email))
      case Success(_) => None
      case Failure(e) => Some(e)
    }

    /** `generateAndSendMfaToken`: a fresh six-digit code from the verification-code generator
        as written replaces any earlier one for five minutes. `draw` is the `nextInt(999999)`
        draw the code is made from, so the stored code is never "999999". Mail delivery is out
        of the model; the call returns true unless masking the address for the log throws. */
    method GenerateAndSendMfaToken(email: string, draw: nat, now: int) returns (r: Result<bool, string>)
      requires draw < 999999
      modifies this
      ensures LogFailure(email).None? ==> r == Success(true)
      ensures LogFailure(email).Some? ==> r == Failure(LogFailure(email).value)
      ensures store == TtlStore.Set(old(store), MfaKey(email), SecurityUtils.GenerateVerificationCode(draw), now,
                                    MFA_TOKEN_EXPIRY_MINUTES * MINUTE_MS)
      ensures HasPendingMfaToken(email, now)
      ensures TtlStore.Get(store, MfaKey(email), now) != Some("999999")
    {
      var code := SecurityUtils.GenerateVerificationCode(draw);
      SecurityUtils.NineNinesUnreachable(draw);
      store := TtlStore.Set(store, MfaKey(email), code, now, MFA_TOKEN_EXPIRY_MINUTES * MINUTE_MS);
      var thrown := LogFailure(email);
      if thrown.Some? {
        return Failure(thrown.value);
      }
      r := Success(true);
    }

    /** `verifyMfaToken`: true exactly when a live code is stored and equals the submitted one;
        a correct code is consumed, a wrong one leaves the store as it was. Masking the address
        for the log may throw after that, and then the call fails with the store as described. */
    method VerifyMfaToken(email: string, token: string, now: int) returns (r: Result<bool, string>)
      modifies this
      ensures LogFailure(email).None? ==> r == Success(old(TtlStore.Get(store, MfaKey(email), now)) == Some(token))
      ensures LogFailure(email).Some? ==> r == Failure(LogFailure(email).value)
      ensures old(TtlStore.Get(store, MfaKey(email), now)) == Some(token) ==>
                store == TtlStore.Delete(old(store), MfaKey(email)) && !HasPendingMfaToken(email, now)
      ensures old(TtlStore.Get(store, MfaKey(email), now)) != Some(token) ==> store == old(store)
    {
      var key := MfaKey(email);
      var stored := TtlStore.Get(store, key, now);
      var matched := stored.Some? && stored.value == token;
      if matched {
        store := TtlStore.Delete(store, key);
      }
      var thrown := LogFailure(email);
      if thrown.Some? {
        return Failure(thrown.value);
      }
      r := Success(matched);
    }

    /** `hasPendingMfaToken`. */
    predicate HasPendingMfaToken(email: string, now: int)
      reads this
    {
      TtlStore.HasKey(store, MfaKey(email), now)
    }

    /** `getMfaTokenTtl`. */
    method GetMfaTokenTtl(email: string, now: int) returns (ttl: int)
      ensures ttl == MfaTokenTtl(store, email, now)
    {
      ttl := TtlStore.TtlSeconds(store, MfaKey(email), now);
    }

    /** `clearMfaToken`: the code is deleted; masking the address for the log may throw
        afterwards. */
    method ClearMfaToken(email: string) returns (r: Outcome<string>)
      modifies this
      ensures LogFailure(email).None? ==> r == Pass
      ensures LogFailure(email).Some? ==> r == Fail(LogFailure(email).value)
      ensures store == TtlStore.Delete(old(store), MfaKey(email))
      ensures forall t :: !HasPendingMfaToken(email, t)
    {
      store := TtlStore.Delete(store, MfaKey(email));
      var thrown := LogFailure(email);
      r := if thrown.Some? then Fail(thrown.value) else Pass;
    }
  }

  /** A code verifies once: the same code presented again right after a success is refused. */
  method VerifyTwice(m: MfaService, email: string, code: string, now: int) returns (first: Result<bool, string>, second: Result<bool, string>)
    modifies m
    ensures first == Success(true) ==> second == Success(false)
  {
    first := m.VerifyMfaToken(email, code, now);
    second := m.VerifyMfaToken(email, code, now);
  }
}
