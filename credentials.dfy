/**
 * `setup_google_credentials`: pick the calendar credential to use.
 *
 * A stored token (token.json) is reused when it is valid. Otherwise an
 * expired token that carries a refresh token is refreshed, and in every
 * other case (no token file, or an invalid token that is not expired or has
 * no refresh token) the interactive consent flow runs. Whatever refresh or
 * consent produced is then written to token.json. Refresh and consent are
 * external actions (a network call, a browser flow) given here by their
 * outcome; an exception from either propagates at once, with no fallback to
 * the other and no write.
 */
module Credentials {
  import opened Wrappers

  /**
   * What the stored credential reports: `creds.valid`, `creds.expired` and
   * whether `creds.refresh_token` is set; `id` tells credentials apart.
   */
  datatype Credential = Credential(valid: bool, expired: bool, hasRefreshToken: bool, id: nat)

  /** The external actions the function may take, in the order taken. */
  datatype AuthAction = Refresh | Consent | WriteToken

  /** The three ways the function can go. */
  datatype Choice = Reuse | RefreshStored | RunConsent

  /** The branch taken for the credential read from token.json, if any. */
  function Decide(stored: Option<Credential>): (c: Choice)
    ensures c == Reuse <==> stored.Some? && stored.value.valid
    ensures c == RefreshStored <==> stored.Some? && !stored.value.valid && stored.value.expired && stored.value.hasRefreshToken
    ensures c == RunConsent <==> stored.None? || (!stored.value.valid && !(stored.value.expired && stored.value.hasRefreshToken))
  {
    if stored.Some? && stored.value.valid then Reuse
    else if stored.Some? && stored.value.expired && stored.value.hasRefreshToken then RefreshStored
    else RunConsent
  }

  /** What one call returns, what token.json then holds, and the actions taken. */
  datatype SetupOutcome = SetupOutcome(result: Result<Credential, string>, stored: Option<Credential>, actions: seq<AuthAction>)

  /**
   * The whole effect of one call, given the stored token and what refresh and
   * consent would yield if they were invoked.
   */
  function Setup(stored: Option<Credential>, refresh: Result<Credential, string>, consent: Result<Credential, string>): SetupOutcome
  {
    match Decide(stored)
    case Reuse => SetupOutcome(Ok(stored.value), stored, [])
    case RefreshStored =>
      if refresh.Err? then SetupOutcome(refresh, stored, [Refresh])
      else SetupOutcome(refresh, Some(refresh.value), [Refresh, WriteToken])
    case RunConsent =>
      if consent.Err? then SetupOutcome(consent, stored, [Consent])
      else SetupOutcome(consent, Some(consent.value), [Consent, WriteToken])
  }

  /** A valid stored token is returned as it is: no refresh, no consent, no write. */
  lemma ValidTokenReused(stored: Option<Credential>, refresh: Result<Credential, string>, consent: Result<Credential, string>)
    requires stored.Some? && stored.value.valid
    ensures Setup(stored, refresh, consent) == SetupOutcome(Ok(stored.value), stored, [])
  {
  }

  /**
   * Refresh is attempted only for an expired stored token that has a refresh
   * token, and consent only when refresh is not; never both in one call.
   */
  lemma RefreshOrConsent(stored: Option<Credential>, refresh: Result<Credential, string>, consent: Result<Credential, string>)
    ensures var o := Setup(stored, refresh, consent);
      && (Refresh in o.actions <==> stored.Some? && !stored.value.valid && stored.value.expired && stored.value.hasRefreshToken)
      && (Consent in o.actions <==> stored.None? || (!stored.value.valid && !(stored.value.expired && stored.value.hasRefreshToken)))
      && !(Refresh in o.actions && Consent in o.actions)
  {
  }

  /**
   * token.json is written exactly when a refresh or a consent succeeded, the
   * write comes last, and it stores the credential returned.
   */
  lemma TokenWrittenAfterSuccess(stored: Option<Credential>, refresh: Result<Credential, string>, consent: Result<Credential, string>)
    ensures var o := Setup(stored, refresh, consent);
      && (WriteToken in o.actions <==> Decide(stored) != Reuse && o.result.Ok?)
      && (WriteToken in o.actions ==> |o.actions| == 2)
      && (WriteToken in o.actions ==> o.actions[|o.actions| - 1] == WriteToken && o.stored == Some(o.result.value))
      && (WriteToken !in o.actions ==> o.stored == stored)
  {
  }

  /** A refresh that raises is the outcome: no consent, token.json untouched. */
  lemma RefreshFailurePropagates(stored: Option<Credential>, refresh: Result<Credential, string>, consent: Result<Credential, string>)
    requires Decide(stored) == RefreshStored && refresh.Err?
    ensures Setup(stored, refresh, consent) == SetupOutcome(Err(refresh.error), stored, [Refresh])
  {
  }

  /**
   * Whatever refresh or consent yields is the outcome when that branch is
   * taken: the credential it produced, or the exception it raised.
   */
  lemma SetupReturnsActionResult(stored: Option<Credential>, refresh: Result<Credential, string>, consent: Result<Credential, string>)
    ensures Decide(stored) == RefreshStored ==> Setup(stored, refresh, consent).result == refresh
    ensures Decide(stored) == RunConsent ==> Setup(stored, refresh, consent).result == consent
  {
  }

  /**
   * The process-wide credential state: the contents of token.json and the
   * log of external actions taken so far.
   */
  class CredentialStore {
    var tokenFile: Option<Credential>
    var actions: seq<AuthAction>

    constructor (stored: Option<Credential>)
      ensures tokenFile == stored && actions == []
    {
      tokenFile := stored;
      actions := [];
    }

    /** `setup_google_credentials()` with the outcomes of the two external actions. */
    method SetupGoogleCredentials(refresh: Result<Credential, string>, consent: Result<Credential, string>)
      returns (r: Result<Credential, string>)
      modifies this
      ensures var o := Setup(old(tokenFile), refresh, consent);
        r == o.result && tokenFile == o.stored && actions == old(actions) + o.actions
    {
      var creds: Option<Credential> := None;
      if tokenFile.Some? {
        creds := tokenFile;
      }
      if creds.None? || !creds.value.valid {
        if creds.Some? && creds.value.expired && creds.value.hasRefreshToken {
          actions := actions + [Refresh];
          if refresh.Err? {
            return Err(refresh.error);
          }
          creds := Some(refresh.value);
        } else {
          actions := actions + [Consent];
          if consent.Err? {
            return Err(consent.error);
          }
          creds := Some(consent.value);
        }
        tokenFile := creds;
        actions := actions + [WriteToken];
      }
      r := Ok(creds.value);
    }
  }
}
