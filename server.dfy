/**
 * The update server's decisions: the `check_for_token` gate around the protected
 * views, the login rule, and the `update` and `view` endpoints. Flask, JWT signing
 * and the wall clock are outside the model: decoding is a function from a token to
 * its outcome at the moment the request is handled (expiry depends on that moment),
 * encoding a function from claims to a token, and "now" an integer number of seconds.
 */
module Server {
  import opened Results
  import Http

  /** The password every non-empty user name is accepted with. */
  const ValidPassword := "password"
  /** `timedelta(minutes=30)`, in seconds. */
  const TokenLifetime := 30 * 60
  const LoggedInKey := "logged_in"

  /** The payload of a login token. */
  datatype Claims = Claims(user: string, exp: int)

  /** How `jwt.decode(token, SECRET_KEY)` ends. */
  datatype DecodeOutcome =
    | Decoded
    | ExpiredSignature
    | InvalidSignature
    | OtherDecodeError(kind: string)

  /** The exceptions a view lets escape: a form field missing from the request, or a failed token decoding. */
  datatype Exception = BadRequestKeyError(key: string) | DecodeError(kind: string)

  /** What a view produces: a response, or an exception it lets escape to Flask. */
  datatype Reply = Respond(response: Http.Response) | Raise(exception: Exception)

  /** The decision `check_for_token` takes before the wrapped view may run. */
  datatype Gate = Admit | Reject(response: Http.Response) | Escape(kind: string)

  /** `jsonify({'message': message}), status`. */
  function MessageResponse(status: int, message: string): Http.Response
  {
    Http.Response(status, map[], Http.JsonBody(Http.JObject(map["message" := Http.JString(message)])))
  }

  /**
   * The checks of `check_for_token`, in order: a missing or empty `token` query
   * argument, then the decoder's verdict. Only an expired or badly signed token is
   * caught; any other decoding error escapes.
   */
  function TokenGate(token: Option<string>, decode: string -> DecodeOutcome): Gate
  {
    if token.None? || token.value == "" then Reject(MessageResponse(Http.StatusForbidden, "Missing token"))
    else match decode(token.value)
      case ExpiredSignature => Reject(MessageResponse(Http.StatusForbidden, "Token expired"))
      case InvalidSignature => Reject(MessageResponse(Http.StatusForbidden, "Invalid token"))
      case OtherDecodeError(kind) => Escape(kind)
      case Decoded => Admit
  }

  /** A view wrapped by `check_for_token`; the view is a thunk, so whether it runs is visible. */
  function CheckForToken(token: Option<string>, decode: string -> DecodeOutcome, view: () -> Http.Response): Reply
  {
    match TokenGate(token, decode)
    case Admit => Respond(view())
    case Reject(response) => Respond(response)
    case Escape(kind) => Raise(DecodeError(kind))
  }

  /** The wrapped view runs exactly when a token is present and decodes; otherwise its result is not used. */
  lemma ViewRunsIffTokenDecodes(token: Option<string>, decode: string -> DecodeOutcome, view: () -> Http.Response,
                                other: () -> Http.Response)
    ensures TokenGate(token, decode) == Admit <==> token.Some? && token.value != "" && decode(token.value) == Decoded
    ensures TokenGate(token, decode) == Admit ==> CheckForToken(token, decode, view) == Respond(view())
    ensures TokenGate(token, decode) != Admit ==> CheckForToken(token, decode, view) == CheckForToken(token, decode, other)
  {
  }

  /** A missing or empty token is refused with 403 "Missing token", without consulting the decoder or the view. */
  lemma MissingTokenRefused(token: Option<string>, decode: string -> DecodeOutcome, view: () -> Http.Response,
                            decode': string -> DecodeOutcome, view': () -> Http.Response)
    requires token.None? || token.value == ""
    ensures CheckForToken(token, decode, view) == Respond(MessageResponse(Http.StatusForbidden, "Missing token"))
    ensures CheckForToken(token, decode, view) == CheckForToken(token, decode', view')
  {
  }

  /** An expired token gets 403 "Token expired", a badly signed one 403 "Invalid token". */
  lemma BadTokensRefused(token: string, decode: string -> DecodeOutcome, view: () -> Http.Response)
    requires token != ""
    ensures decode(token) == ExpiredSignature ==>
              CheckForToken(Some(token), decode, view) == Respond(MessageResponse(Http.StatusForbidden, "Token expired"))
    ensures decode(token) == InvalidSignature ==>
              CheckForToken(Some(token), decode, view) == Respond(MessageResponse(Http.StatusForbidden, "Invalid token"))
    ensures decode(token).OtherDecodeError? ==>
              CheckForToken(Some(token), decode, view) == Raise(DecodeError(decode(token).kind))
  {
  }

  // ---------------------------------------------------------------------------
  // Login

  /** `jsonify({'token': token})`. */
  function TokenResponse(token: string): Http.Response
  {
    Http.Response(Http.StatusOk, map[], Http.JsonBody(Http.JObject(map["token" := Http.JString(token)])))
  }

  /** The 401 reply asking for basic authentication. */
  const CouldNotVerify: Http.Response :=
    Http.Response(Http.StatusUnauthorized, map["WWW-Authenticate" := "Basic realm=\"Login Required\""],
                  Http.TextBody("Could not verify!"))

  /** The login rule: a non-empty user name and the password `password`. */
  predicate Grants(form: map<string, string>)
  {
    "username" in form && form["username"] != "" && "password" in form && form["password"] == ValidPassword
  }

  /**
   * The reply of `login` for the posted form at time `now`. `request.form[...]` raises
   * for a missing field; the `and` reads the password only after a non-empty user name.
   */
  function LoginReply(form: map<string, string>, now: int, encode: Claims -> string): Reply
  {
    if "username" !in form then Raise(BadRequestKeyError("username"))
    else if form["username"] == "" then Respond(CouldNotVerify)
    else if "password" !in form then Raise(BadRequestKeyError("password"))
    else if form["password"] != ValidPassword then Respond(CouldNotVerify)
    else Respond(TokenResponse(encode(Claims(form["username"], now + TokenLifetime))))
  }

  /** Login succeeds exactly under the login rule, and the token then names the user and expires 30 minutes on. */
  lemma LoginSucceedsIff(form: map<string, string>, now: int, encode: Claims -> string)
    ensures (LoginReply(form, now, encode).Respond? && LoginReply(form, now, encode).response.status == Http.StatusOk)
            <==> Grants(form)
    ensures Grants(form) ==>
              LoginReply(form, now, encode) == Respond(TokenResponse(encode(Claims(form["username"], now + TokenLifetime))))
  {
  }

  /** With both fields posted, a refused login is a 401 carrying the WWW-Authenticate header. */
  lemma RefusedLoginAsksForCredentials(form: map<string, string>, now: int, encode: Claims -> string)
    requires "username" in form && "password" in form && !Grants(form)
    ensures LoginReply(form, now, encode) == Respond(CouldNotVerify)
    ensures "WWW-Authenticate" in LoginReply(form, now, encode).response.headers
  {
  }

  /** An empty user name is refused even when no password is posted: the password is never read. */
  lemma EmptyUserNameShortCircuits(form: map<string, string>, now: int, encode: Claims -> string)
    requires "username" in form && form["username"] == "" && "password" !in form
    ensures LoginReply(form, now, encode) == Respond(CouldNotVerify)
  {
  }

  /** Flask's session store of one client. */
  class Session {
    var data: map<string, bool>

    constructor ()
      ensures data == map[]
    {
      data := map[];
    }
  }

  /** `login`: replies as `LoginReply` and marks the session logged in when, and only when, it grants. */
  method Login(session: Session, form: map<string, string>, now: int, encode: Claims -> string)
    returns (reply: Reply)
    modifies session
    ensures reply == LoginReply(form, now, encode)
    ensures session.data == if Grants(form) then old(session.data)[LoggedInKey := true] else old(session.data)
  {
    if "username" !in form {
      return Raise(BadRequestKeyError("username"));
    }
    if form["username"] != "" {
      if "password" !in form {
        return Raise(BadRequestKeyError("password"));
      }
    }
    if form["username"] != "" && form["password"] == ValidPassword {
      session.data := session.data[LoggedInKey := true];
      var token := encode(Claims(form["username"], now + TokenLifetime));
      return Respond(TokenResponse(token));
    } else {
      return Respond(CouldNotVerify);
    }
  }

  // ---------------------------------------------------------------------------
  // The protected views

  /** The body of `update`: the request's JSON echoed back with status 200. */
  function UpdateView(macaddress: string, requestJson: Http.Json): Http.Response
  {
    Http.Response(Http.StatusOk, map[], Http.JsonBody(requestJson))
  }

  /** `update` behind the token gate. */
  function Update(macaddress: string, token: Option<string>, decode: string -> DecodeOutcome,
                  requestJson: Http.Json): Reply
  {
    CheckForToken(token, decode, () => UpdateView(macaddress, requestJson))
  }

  /**
   * An admitted update is answered 200 with the request's JSON unchanged, and the
   * reply is the same whatever MAC address the path names: there is no registry check.
   */
  lemma UpdateEchoesForAnyAddress(macaddress: string, other: string, token: Option<string>,
                                  decode: string -> DecodeOutcome, requestJson: Http.Json)
    ensures TokenGate(token, decode) == Admit ==>
              Update(macaddress, token, decode, requestJson)
              == Respond(Http.Response(Http.StatusOk, map[], Http.JsonBody(requestJson)))
    ensures Update(macaddress, token, decode, requestJson) == Update(other, token, decode, requestJson)
  {
  }

  /** `view` behind the token gate: a plain-text liveness reply. */
  function View(token: Option<string>, decode: string -> DecodeOutcome): Reply
  {
    CheckForToken(token, decode, () => Http.Response(Http.StatusOk, map[], Http.TextBody("You got me!")))
  }

  /**
   * `view` answers "You got me!" once admitted, and refuses a token exactly as
   * `update` does: both sit behind the same gate.
   */
  lemma ViewSharesTheGate(token: Option<string>, decode: string -> DecodeOutcome, macaddress: string,
                          requestJson: Http.Json)
    ensures TokenGate(token, decode) == Admit ==>
              View(token, decode) == Respond(Http.Response(Http.StatusOk, map[], Http.TextBody("You got me!")))
    ensures TokenGate(token, decode) != Admit ==> View(token, decode) == Update(macaddress, token, decode, requestJson)
  {
  }
}
