/**
 * The session of the web client: on start-up the provider posts the Mini App
 * init data to `/auth` and records a bearer token, or an error, and in every
 * case stops loading.
 */
module AuthProvider {
  import opened Wrappers
  import opened FetchApi

  /** What the context exposes. */
  datatype Session = Session(bearerToken: Option<string>, loading: bool, error: Option<string>)

  /** The context's default value, which is also the provider's state before `initAuth` runs. */
  const InitialSession := Session(None, true, None)

  /**
   * How the `/auth` request ends: the promise rejects with a reason, or a
   * response arrives with a status and a body whose JSON yields the token or
   * fails to parse with a reason.
   */
  datatype FetchOutcome = Rejected(reason: string) | Answered(status: int, body: Result<string>)

  /**
   * The body `initAuth` posts to `/auth`, `JSON.stringify({ initDataRaw })`:
   * the value of the SDK's `initData.raw` signal, which may hold nothing.
   */
  datatype AuthRequest = AuthRequest(initDataRaw: Option<string>)

  /** The message the `catch` records for a thrown `err`. */
  function Denied(err: string): string
  {
    "Access denied: " + err + "."
  }

  /**
   * The session after `initAuth` has run from `s`. The guard in front of the
   * request tests the imported `initData` object of the SDK, which is always
   * truthy, so it never throws: the outcome depends on the answer alone.
   */
  function Settle(s: Session, fetch: FetchOutcome): Session
  {
    match fetch
    case Rejected(reason) => s.(loading := false, error := Some(Denied(reason)))
    case Answered(status, body) =>
      if !ResponseOk(status) then s.(loading := false, error := Some("Authentication failed"))
      else match body
        case Ok(token) => s.(loading := false, bearerToken := Some(token))
        case Err(reason) => s.(loading := false, error := Some(Denied(reason)))
  }

  /** The provider's state. */
  class AuthState {
    var bearerToken: Option<string>
    var loading: bool
    var error: Option<string>

    function Current(): Session
      reads this
    {
      Session(bearerToken, loading, error)
    }

    constructor ()
      ensures Current() == InitialSession
    {
      bearerToken := None;
      loading := true;
      error := None;
    }

    /**
     * `initAuth`: the `try` body, with a thrown error carried to the `catch`,
     * which records it, and the `finally`, which stops loading. `initDataRaw`
     * is the value of the `initData.raw` signal; `sent` is the request posted.
     * The guard on the SDK object always passes, so the request is posted
     * even when there is no raw init data.
     */
    method InitAuth(initDataRaw: Option<string>, fetch: FetchOutcome) returns (sent: Option<AuthRequest>)
      modifies this
      ensures sent == Some(AuthRequest(initDataRaw))
      ensures Current() == Settle(old(Current()), fetch)
    {
      var thrown: Option<string> := None;
      sent := Some(AuthRequest(initDataRaw));
      match fetch {
        case Rejected(reason) =>
          thrown := Some(reason);
        case Answered(status, body) =>
          if status == 403 {
            error := Some("Access denied: user not allowed.");
          }
          if !ResponseOk(status) {
            error := Some("Authentication failed");
          } else {
            match body
            case Ok(token) =>
              bearerToken := Some(token);
            case Err(reason) =>
              thrown := Some(reason);
          }
      }
      if thrown.Some? {
        error := Some(Denied(thrown.value));
      }
      loading := false;
    }
  }

  /** After `initAuth` the provider has stopped loading, and holds either a token or an error, never both. */
  lemma SettleExclusive(fetch: FetchOutcome)
    ensures var s := Settle(InitialSession, fetch);
      !s.loading && (s.bearerToken.Some? <==> s.error.None?)
  {
  }

  /** A token is recorded exactly when the server answers ok with a parsable body. */
  lemma TokenOnlyOnSuccess(s: Session, fetch: FetchOutcome)
    ensures Settle(s, fetch).bearerToken != s.bearerToken ==>
      fetch.Answered? && ResponseOk(fetch.status) && fetch.body.Ok?
    ensures fetch.Answered? && ResponseOk(fetch.status) && fetch.body.Ok? ==>
      Settle(s, fetch).bearerToken == Some(fetch.body.value)
  {
  }

  /** A 403 ends as "Authentication failed": the later `setError` replaces the "user not allowed" message. */
  lemma ForbiddenEndsFailed(s: Session)
    ensures forall body :: Settle(s, Answered(403, body)).error == Some("Authentication failed")
  {
  }

  /** Every error the provider records is a non-empty text. */
  lemma ErrorsNonEmpty(s: Session, fetch: FetchOutcome)
    requires s.error.None? || s.error.value != ""
    ensures var r := Settle(s, fetch);
      r.error.None? || r.error.value != ""
  {
    var r := Settle(s, fetch);
    if r.error.Some? && r.error != s.error {
      assert r.error.value[0] in {'A'};
    }
  }
}
