/**
 * The guard in front of the client's pages: it throws the session error to
 * the error page, shows a waiting notice while the session is being
 * validated, and otherwise renders the child routes.
 */
module ProtectedRoute {
  import opened Wrappers
  import AuthProvider

  /** What the guard renders. */
  datatype View = Throws(message: string) | Validating | Children

  /** `error` as a JavaScript condition: a string is true unless it is empty. */
  predicate Truthy(error: Option<string>)
  {
    error.Some? && error.value != ""
  }

  /** `ProtectedRoute`: the error first, then loading, then the children. */
  function Route(loading: bool, error: Option<string>): (v: View)
    ensures v.Throws? <==> Truthy(error)
    ensures v.Throws? ==> v.message == error.value
    ensures v == Validating <==> !Truthy(error) && loading
    ensures v == Children <==> !Truthy(error) && !loading
  {
    if Truthy(error) then Throws(error.value)
    else if loading then Validating
    else Children
  }

  /** Before `initAuth` settles, the guard shows the waiting notice. */
  lemma ValidatingAtStart()
    ensures Route(AuthProvider.InitialSession.loading, AuthProvider.InitialSession.error) == Validating
  {
  }

  /**
   * Once `initAuth` has settled, the guard never waits: it renders the
   * children exactly when a token was obtained, and throws the error otherwise.
   */
  lemma RouteAfterAuth(fetch: AuthProvider.FetchOutcome)
    ensures var s := AuthProvider.Settle(AuthProvider.InitialSession, fetch);
      Route(s.loading, s.error) != Validating
      && (Route(s.loading, s.error) == Children <==> s.bearerToken.Some?)
      && (s.error.Some? ==> Route(s.loading, s.error) == Throws(s.error.value))
  {
    AuthProvider.SettleExclusive(fetch);
    AuthProvider.ErrorsNonEmpty(AuthProvider.InitialSession, fetch);
  }
}
