/** The profile service's `/me` route: the delegated bearer gate, which
    keeps the token on the request, then the profile gathered with that
    token. */
module ProfileController {
  import opened Js
  import opened Auth

  /** What `/me` sends: the profile (an opaque value `P` here) or `{ error }`. */
  datatype Body<P> = Profile(profile: P) | ErrorJson(error: string)

  /** `GET /me`: `service` is what `getProfile` did with the token it was
      given (its message is "" when empty). */
  function Me<P>(header: Option<string>, remote: string -> VerifyCall, service: Result<P, string>)
    : (h: Handled<string, Body<P>>)
    ensures var gate := DelegatedAuthenticate(header, remote).gate;
            && (gate.Deny? ==> h == Handled(None, Reply(gate.status, ErrorJson(gate.error))))
            && (h.call.Some? <==> gate.Pass?)
            && (gate.Pass? ==> h.call == Some(gate.token))
    ensures h.call.Some? && service.Success? ==> h.reply == Reply(200, Profile(service.value))
    ensures h.call.Some? && service.Failure? ==>
              h.reply == Reply(500, ErrorJson(if service.error != "" then service.error else "Failed to load profile"))
  {
    match DelegatedAuthenticate(header, remote).gate
    case Deny(status, error) => Handled(None, Reply(status, ErrorJson(error)))
    case Pass(_, token) =>
      match service
      case Success(profile) => Handled(Some(token), Reply(200, Profile(profile)))
      case Failure(message) => Handled(Some(token), Reply(500, ErrorJson(OrElse(message, "Failed to load profile"))))
  }

  /** The token handed to `getProfile` is the header's text after
      "Bearer ", the same token the gate had verified. */
  lemma MeForwardsHeaderToken<P>(token: string, remote: string -> VerifyCall, service: Result<P, string>)
    requires remote(token).VerifyReplied? && remote(token).valid && remote(token).user.Some?
    ensures Me(Some(BearerPrefix + token), remote, service).call == Some(token)
  {
    BearerTokenOfHeader(token);
  }
}
