/** The users service's routes: its own (local) bearer authentication,
    registration, login, `/me`, lookup by id and token verification for
    the other services. Each handler is a function of the request and of
    what the service answered; `call` records what was asked of it. */
module UsersController {
  import opened Js
  import opened Auth
  import opened UsersService

  /** The JSON bodies the routes send. */
  datatype Body = UserJson(user: User)
                | LoginJson(login: LoginResponse)
                | Valid(claim: Claim)          // { valid: true, user }
                | Invalid(message: string)     // { valid: false, error }
                | ErrorJson(error: string)     // { error }

  /** `authenticate` of the users service: the token is checked here,
      with verifyToken. */
  function LocalAuthenticate(header: Option<string>, verify: string -> Option<Claim>): (g: Gate)
    ensures BearerToken(header).None? ==> g == Deny(401, "Authorization header missing or invalid")
    ensures BearerToken(header).Some? && verify(BearerToken(header).value).None? ==> g == Deny(401, InvalidToken)
    ensures g.Pass? <==> BearerToken(header).Some? && verify(BearerToken(header).value).Some?
    ensures g.Pass? ==> g.token == BearerToken(header).value && verify(g.token) == Some(g.user)
  {
    match BearerToken(header)
    case None => Deny(401, "Authorization header missing or invalid")
    case Some(token) =>
      match VerifyToken(token, verify)
      case Success(user) => Pass(user, token)
      case Failure(message) => Deny(401, OrElse(message, "Authentication failed"))
  }

  /** The fields of a register request; "" stands for an absent or empty field. */
  datatype RegisterBody = RegisterBody(username: string, email: string, password: string)

  const MinPasswordLength := 6

  /** `POST /register`. */
  function Register(body: RegisterBody, service: Result<User, string>): (h: Handled<RegisterBody, Body>)
    ensures body.username == "" || body.email == "" || body.password == "" ==>
              h == Handled(None, Reply(400, ErrorJson("Missing required fields: username, email, password")))
    ensures body.username != "" && body.email != "" && body.password != "" && Utf16Length(body.password) < MinPasswordLength ==>
              h == Handled(None, Reply(400, ErrorJson("Password must be at least 6 characters long")))
    ensures h.call.Some? <==> body.username != "" && body.email != "" && Utf16Length(body.password) >= MinPasswordLength
    ensures h.call.Some? ==> h.call.value == body
    ensures h.call.Some? && service.Success? ==> h.reply == Reply(201, UserJson(service.value))
    ensures h.call.Some? && service.Failure? ==>
              h.reply.status == 400 && h.reply.body.ErrorJson? && h.reply.body.error != ""
              && (service.error != "" ==> h.reply.body.error == service.error)
              && (service.error == "" ==> h.reply.body.error == "Registration failed")
  {
    if body.username == "" || body.email == "" || body.password == "" then
      Handled(None, Reply(400, ErrorJson("Missing required fields: username, email, password")))
    else if Utf16Length(body.password) < MinPasswordLength then
      Handled(None, Reply(400, ErrorJson("Password must be at least 6 characters long")))
    else
      match service
      case Success(user) => Handled(Some(body), Reply(201, UserJson(user)))
      case Failure(message) => Handled(Some(body), Reply(400, ErrorJson(OrElse(message, "Registration failed"))))
  }

  datatype LoginBody = LoginBody(email: string, password: string)

  /** `POST /login`. */
  function Login(body: LoginBody, service: Result<LoginResponse, string>): (h: Handled<LoginBody, Body>)
    ensures body.email == "" || body.password == "" ==>
              h == Handled(None, Reply(400, ErrorJson("Missing required fields: email, password")))
    ensures h.call.Some? <==> body.email != "" && body.password != ""
    ensures h.call.Some? ==> h.call.value == body
    ensures h.call.Some? && service.Success? ==> h.reply == Reply(200, LoginJson(service.value))
    ensures h.call.Some? && service.Failure? ==>
              h.reply.status == 401 && h.reply.body.ErrorJson? && h.reply.body.error != ""
              && (service.error != "" ==> h.reply.body.error == service.error)
              && (service.error == "" ==> h.reply.body.error == "Login failed")
  {
    if body.email == "" || body.password == "" then
      Handled(None, Reply(400, ErrorJson("Missing required fields: email, password")))
    else
      match service
      case Success(resp) => Handled(Some(body), Reply(200, LoginJson(resp)))
      case Failure(message) => Handled(Some(body), Reply(401, ErrorJson(OrElse(message, "Login failed"))))
  }

  /** The tail shared by `/me` and `/:id`: `getUserById`'s answer (None
      for `null`, Failure for a thrown error) as a reply. */
  function UserReply(service: Result<Option<User>, string>): (r: Reply<Body>)
    ensures service.Success? && service.value.None? ==> r == Reply(404, ErrorJson(NotFound))
    ensures service.Success? && service.value.Some? ==> r == Reply(200, UserJson(service.value.value))
    ensures service.Failure? ==> r == Reply(500, ErrorJson(service.error))
  {
    match service
    case Success(None) => Reply(404, ErrorJson(NotFound))
    case Success(Some(user)) => Reply(200, UserJson(user))
    case Failure(message) => Reply(500, ErrorJson(message))
  }

  /** `GET /me`: authenticated, then the user whose id the token carries. */
  function Me(header: Option<string>, verify: string -> Option<Claim>, service: Result<Option<User>, string>)
    : (h: Handled<int, Body>)
    ensures LocalAuthenticate(header, verify).Deny? ==>
              h == Handled(None, Reply(401, ErrorJson(LocalAuthenticate(header, verify).error)))
    ensures LocalAuthenticate(header, verify).Pass? ==>
              h == Handled(Some(LocalAuthenticate(header, verify).user.id), UserReply(service))
  {
    match LocalAuthenticate(header, verify)
    case Deny(status, error) => Handled(None, Reply(status, ErrorJson(error)))
    case Pass(user, _) => Handled(Some(user.id), UserReply(service))
  }

  /** `GET /:id`: the id is read with `parseInt(id, 10)`. */
  function ById(idParam: string, service: Result<Option<User>, string>): (h: Handled<int, Body>)
    ensures ParseInt(idParam, false).None? ==> h == Handled(None, Reply(400, ErrorJson("Invalid user ID")))
    ensures ParseInt(idParam, false).Some? ==> h == Handled(ParseInt(idParam, false), UserReply(service))
  {
    match ParseInt(idParam, false)
    case None => Handled(None, Reply(400, ErrorJson("Invalid user ID")))
    case Some(id) => Handled(Some(id), UserReply(service))
  }

  /** The id of a user, written by `String(id)` into the path as the
      other services do, reaches the service unchanged. */
  lemma ByIdOfIntToString(id: int, service: Result<Option<User>, string>)
    ensures ById(IntToString(id), service).call == Some(id)
  {
    ParseIntOfIntToString(id, false);
  }

  /** `POST /verify`: `token` is "" when absent or empty. */
  function Verify(token: string, verify: string -> Option<Claim>): (h: Handled<string, Body>)
    ensures token == "" ==> h == Handled(None, Reply(400, ErrorJson("Token is required")))
    ensures token != "" && verify(token).Some? ==> h == Handled(Some(token), Reply(200, Valid(verify(token).value)))
    ensures token != "" && verify(token).None? ==> h == Handled(Some(token), Reply(401, Invalid(InvalidToken)))
  {
    if token == "" then Handled(None, Reply(400, ErrorJson("Token is required")))
    else
      match VerifyToken(token, verify)
      case Success(user) => Handled(Some(token), Reply(200, Valid(user)))
      case Failure(message) => Handled(Some(token), Reply(401, Invalid(message)))
  }

  /** How axios reports a reply of `/verify` to the caller: a 2xx status
      resolves with the body; any other status throws, with the reply's
      `error` field and a message naming the status. */
  function AsSeenByAxios(reply: Reply<Body>): (call: VerifyCall)
    ensures call.VerifyReplied? <==> 200 <= reply.status < 300
    ensures call.VerifyReplied? ==> call.valid == reply.body.Valid? && call.user == (if reply.body.Valid? then Some(reply.body.claim) else None)
    ensures call.VerifyFailed? ==> call.message == "Request failed with status code " + IntToString(reply.status)
    ensures call.VerifyFailed? && reply.body.Invalid? ==> call.responseError == reply.body.message
    ensures call.VerifyFailed? && reply.body.ErrorJson? ==> call.responseError == reply.body.error
    ensures call.VerifyFailed? && !reply.body.Invalid? && !reply.body.ErrorJson? ==> call.responseError == ""
  {
    if 200 <= reply.status < 300 then
      match reply.body
      case Valid(claim) => VerifyReplied(true, Some(claim))
      case _ => VerifyReplied(false, None)
    else
      var error := match reply.body
                   case Invalid(message) => message
                   case ErrorJson(error) => error
                   case _ => "";
      VerifyFailed(error, "Request failed with status code " + IntToString(reply.status))
  }

  /** The `/verify` route as another service's axios call sees it. */
  function ThroughAxios(verify: string -> Option<Claim>): string -> VerifyCall
  {
    t => AsSeenByAxios(Verify(t, verify).reply)
  }

  /** The delegated gate of the comments and profile services, put in
      front of this service's `/verify`, decides as the local gate does:
      the same users pass, with the same token; every refusal is a 401;
      and only the header text differs, plus the empty token, which
      `/verify` refuses as missing. */
  lemma DelegatedAgreesWithLocal(header: Option<string>, verify: string -> Option<Claim>)
    requires verify("") == None
    ensures var local := LocalAuthenticate(header, verify);
            var remote := DelegatedAuthenticate(header, ThroughAxios(verify)).gate;
            && (local.Pass? <==> remote.Pass?)
            && (local.Pass? ==> local == remote)
            && (local.Deny? ==> local.status == 401 == remote.status)
            && (BearerToken(header).Some? && BearerToken(header).value != "" ==> local == remote)
  {
    var remote := ThroughAxios(verify);
    match BearerToken(header)
    case None =>
    case Some(token) =>
      if token != "" && verify(token).None? {
        assert remote(token) == VerifyFailed(InvalidToken, "Request failed with status code " + IntToString(401));
      }
  }
}
