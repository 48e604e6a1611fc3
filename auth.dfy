/** Bearer-token authentication as the services do it: extracting the
    token from an `Authorization` header, and the delegated gate of the
    comments and profile services, which posts the token to the users
    service's `/users/verify` and trusts its answer. The users service's
    own, local gate is in UsersController. */
module Auth {
  import opened Js

  /** The JWT payload: who the token was issued to. */
  datatype Claim = Claim(id: int, username: string, email: string)

  const BearerPrefix := "Bearer "

  /** `!header || !header.startsWith("Bearer ")` is false, and the token
      is `header.substring(7)`. */
  function BearerToken(header: Option<string>): (token: Option<string>)
    ensures token.Some? <==> header.Some? && |BearerPrefix| <= |header.value| && header.value[..|BearerPrefix|] == BearerPrefix
    ensures token.Some? ==> header.value == BearerPrefix + token.value
  {
    match header
    case None => None
    case Some(h) =>
      if |h| >= 7 && h[..7] == BearerPrefix then
        assert h == h[..7] + h[7..];
        Some(h[7..])
      else None
  }

  /** The token comes back from the header that carries it. */
  lemma BearerTokenOfHeader(token: string)
    ensures BearerToken(Some(BearerPrefix + token)) == Some(token)
  {
    assert (BearerPrefix + token)[..7] == BearerPrefix;
    assert (BearerPrefix + token)[7..] == token;
  }

  /** What an authentication middleware does: lets the request on with the
      user (and the token, which the profile service keeps for later), or
      answers with a status and `{ error }`. */
  datatype Gate = Pass(user: Claim, token: string) | Deny(status: nat, error: string)

  /** What `POST /users/verify` did, as axios reports it: a 2xx reply with
      `valid` and `user` from its body, or a thrown error with the reply
      body's `error` ("" when there is none or no reply) and the error's
      own `message` ("" when empty). */
  datatype VerifyCall = VerifyReplied(valid: bool, user: Option<Claim>)
                      | VerifyFailed(responseError: string, message: string)

  /** What the delegated gate sent to the users service (None: nothing)
      and what it decided. */
  datatype Delegated = Delegated(sent: Option<string>, gate: Gate)

  const MissingHeader := "Missing or invalid Authorization header"
  const VerificationFailed := "Token verification failed"

  /** `authenticate` of the comments and profile controllers; `remote`
      is the users service's verify endpoint as seen through axios. */
  function DelegatedAuthenticate(header: Option<string>, remote: string -> VerifyCall): (d: Delegated)
    ensures BearerToken(header).None? ==> d == Delegated(None, Deny(401, MissingHeader))
    ensures BearerToken(header).Some? ==> d.sent == BearerToken(header)
    ensures d.gate.Pass? <==> BearerToken(header).Some? &&
                               var call := remote(BearerToken(header).value);
                               call.VerifyReplied? && call.valid && call.user.Some?
    ensures d.gate.Pass? ==> d.gate.token == BearerToken(header).value
                             && remote(d.gate.token).user == Some(d.gate.user)
    ensures BearerToken(header).Some? && remote(BearerToken(header).value).VerifyReplied? ==>
              var call := remote(BearerToken(header).value);
              !call.valid || call.user.None? ==> d.gate == Deny(401, VerificationFailed)
    ensures d.gate.Deny? ==> d.gate.status == 401 && d.gate.error != ""
  {
    match BearerToken(header)
    case None => Delegated(None, Deny(401, MissingHeader))
    case Some(token) =>
      var gate :=
        match remote(token)
        case VerifyReplied(valid, user) =>
          if !valid || user.None? then Deny(401, VerificationFailed) else Pass(user.value, token)
        case VerifyFailed(responseError, message) =>
          Deny(401, OrElse(responseError, OrElse(message, "Authentication failed")));
      Delegated(Some(token), gate)
  }

  /** A thrown verify call is reported with the first non-empty of the
      reply's `error`, the error's `message` and "Authentication failed". */
  lemma DelegatedErrorMessage(header: Option<string>, remote: string -> VerifyCall)
    requires BearerToken(header).Some? && remote(BearerToken(header).value).VerifyFailed?
    ensures var call := remote(BearerToken(header).value);
            DelegatedAuthenticate(header, remote).gate ==
              Deny(401, if call.responseError != "" then call.responseError
                        else if call.message != "" then call.message
                        else "Authentication failed")
  {
  }
}
