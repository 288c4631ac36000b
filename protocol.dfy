/**
 * The client and the server together: the server's handlers, served as Flask serves
 * them, answer the two requests the client sends. Flask turns an exception that
 * escapes a handler into an error reply; the client's login posts its user name and
 * password as a form, and its update carries the token as the `token` query argument
 * and the fixed profile document as its JSON body.
 */
module Protocol {
  import opened Results
  import Http
  import Server
  import Client

  /** Flask's reply when a handler raises: 400 for a missing form field, 500 for anything else. */
  function ErrorResponse(exception: Server.Exception): Http.Response
  {
    match exception
    case BadRequestKeyError(_) => Http.Response(Http.StatusBadRequest, map[], Http.TextBody("Bad Request"))
    case DecodeError(_) => Http.Response(Http.StatusInternalServerError, map[], Http.TextBody("Internal Server Error"))
  }

  /** What Flask sends for a handler's reply: the response itself, or an error status for an exception. */
  function Served(reply: Server.Reply): (res: Http.Response)
    ensures reply.Respond? ==> res == reply.response
    ensures reply.Raise? ==> res.status == (if reply.exception.BadRequestKeyError? then Http.StatusBadRequest
                                             else Http.StatusInternalServerError)
  {
    match reply
    case Respond(response) => response
    case Raise(exception) => ErrorResponse(exception)
  }

  /** A login form missing a field the handler reads is answered 400. */
  lemma MissingFormFieldIsBadRequest(form: map<string, string>, now: int, encode: Server.Claims -> string)
    requires "username" !in form || (form["username"] != "" && "password" !in form)
    ensures Served(Server.LoginReply(form, now, encode)).status == Http.StatusBadRequest
  {
  }

  /** The form `_login` posts. */
  function LoginForm(config: Client.ClientConfig): map<string, string>
  {
    map["username" := config.username, "password" := config.password]
  }

  function Application(applicationId: string, version: string): Http.Json
  {
    Http.JObject(map["applicationId" := Http.JString(applicationId), "version" := Http.JString(version)])
  }

  /** The profile document `_update_player` sends with every update. */
  const UpdatePayload: Http.Json :=
    Http.JObject(map["profile" := Http.JObject(map["applications" := Http.JArray([
      Application("music_app", "v1.4.10"),
      Application("diagnostic_app", "v1.2.6"),
      Application("settings_app", "v1.1.5")])])])

  /** `jwt.decode` with the server's key: the outcome of decoding a token at a moment in time. */
  type Decoder = (string, int) -> Server.DecodeOutcome

  /** The server's answer to one client request, received at time `now`. */
  function Answer(request: Client.Request, now: int, encode: Server.Claims -> string, decode: Decoder)
    : Http.Response
  {
    match request
    case LoginRequest(_, username, password) =>
      Served(Server.LoginReply(LoginForm(Client.ClientConfig(request.baseUrl, username, password)), now, encode))
    case UpdateRequest(_, macAddress, token) =>
      Served(Server.Update(macAddress, Some(token), t => decode(t, now), UpdatePayload))
  }

  /** The deployed server as the client sees it: request `n` is received at `clock(n)`. */
  function Deployed(clock: nat -> int, encode: Server.Claims -> string, decode: Decoder)
    : Client.Server
  {
    (n: nat, request: Client.Request) => Answer(request, clock(n), encode, decode)
  }

  /** The credentials the server grants: any non-empty user name with the password `password`. */
  predicate Accepted(config: Client.ClientConfig)
  {
    config.username != "" && config.password == Server.ValidPassword
  }

  /**
   * `get_authentification_token_id` against the server: a token exactly for accepted
   * credentials, naming the user and expiring 30 minutes after the login; for any
   * other credentials the invalid-credentials error, never a server error.
   */
  lemma LoginTokenIff(config: Client.ClientConfig, now: int, encode: Server.Claims -> string,
                      decode: Decoder)
    ensures var r := Client.AuthentificationToken(Answer(Client.Login(config), now, encode, decode));
            && (r.Success? <==> Accepted(config))
            && (r.Success? ==> r.value == encode(Server.Claims(config.username, now + Server.TokenLifetime)))
            && (r.Failure? ==> r.error == Client.ClientFailure(Client.InvalidCredentials))
  {
    var form := LoginForm(config);
    assert form["username"] == config.username && form["password"] == config.password;
    Server.LoginSucceedsIff(form, now, encode);
  }

  /**
   * An update is answered 200, echoing the profile document, exactly when its token
   * is non-empty and decodes; a missing, expired or badly signed token gets 403, and
   * any other decoding error 500. The MAC address plays no part.
   */
  lemma UpdateAcceptedIff(baseUrl: string, macAddress: string, token: string, now: int,
                          encode: Server.Claims -> string, decode: Decoder)
    ensures var res := Answer(Client.UpdateRequest(baseUrl, macAddress, token), now, encode, decode);
            && (res.status == Http.StatusOk <==> token != "" && decode(token, now) == Server.Decoded)
            && (res.status == Http.StatusOk ==> res.body == Http.JsonBody(UpdatePayload))
            && (|| token == ""
                || decode(token, now) == Server.ExpiredSignature
                || decode(token, now) == Server.InvalidSignature
                <==> res.status == Http.StatusForbidden)
            && (token != "" && decode(token, now).OtherDecodeError? <==> res.status == Http.StatusInternalServerError)
  {
  }

  /**
   * The server's own tokens are non-empty, decode up to their `exp` claim and are
   * expired after it, as `jwt.decode` checks the expiry of a token signed with its key.
   */
  ghost predicate SignedTokensExpireOnTime(encode: Server.Claims -> string, decode: Decoder)
  {
    && (forall c :: encode(c) != "")
    && (forall c, t :: decode(encode(c), t) == if t <= c.exp then Server.Decoded else Server.ExpiredSignature)
  }

  /** Each request reaches the server at most a token's lifetime after the one before it. */
  ghost predicate PromptClock(clock: nat -> int)
  {
    forall n: nat :: clock(n + 1) <= clock(n) + Server.TokenLifetime
  }

  /** A login with accepted credentials, as the client sees it, yields a freshly signed token. */
  lemma DeployedLogin(config: Client.ClientConfig, clock: nat -> int, encode: Server.Claims -> string,
                      decode: Decoder, n: nat)
    requires Accepted(config)
    ensures Client.AuthentificationToken(Deployed(clock, encode, decode)(n, Client.Login(config)))
            == Success(encode(Server.Claims(config.username, clock(n) + Server.TokenLifetime)))
  {
    LoginTokenIff(config, clock(n), encode, decode);
  }

  /** An update carrying a token the server signed is answered 200 until the token's expiry. */
  lemma DeployedUpdate(clock: nat -> int, encode: Server.Claims -> string, decode: Decoder,
                       n: nat, baseUrl: string, macAddress: string, claims: Server.Claims)
    requires SignedTokensExpireOnTime(encode, decode) && clock(n) <= claims.exp
    ensures Deployed(clock, encode, decode)(n, Client.UpdateRequest(baseUrl, macAddress, encode(claims))).status
            == Http.StatusOk
  {
    UpdateAcceptedIff(baseUrl, macAddress, encode(claims), clock(n), encode, decode);
  }

  /** After the token's expiry, the same update is refused with 403 "Token expired". */
  lemma LateUpdateExpired(clock: nat -> int, encode: Server.Claims -> string, decode: Decoder,
                          n: nat, baseUrl: string, macAddress: string, claims: Server.Claims)
    requires SignedTokensExpireOnTime(encode, decode) && clock(n) > claims.exp
    ensures Deployed(clock, encode, decode)(n, Client.UpdateRequest(baseUrl, macAddress, encode(claims)))
            == Server.MessageResponse(Http.StatusForbidden, "Token expired")
  {
    assert decode(encode(claims), clock(n)) == Server.ExpiredSignature;
  }

  /**
   * With accepted credentials and a prompt clock, the deployed server is cooperative:
   * every login yields a token the server still accepts on the next request.
   */
  lemma DeployedIsCooperative(config: Client.ClientConfig, clock: nat -> int, encode: Server.Claims -> string,
                              decode: Decoder)
    requires Accepted(config) && SignedTokensExpireOnTime(encode, decode) && PromptClock(clock)
    ensures Client.Cooperative(config, Deployed(clock, encode, decode))
  {
    var server := Deployed(clock, encode, decode);
    forall n: nat
      ensures Client.AuthentificationToken(server(n, Client.Login(config))).Success?
      ensures forall m :: server(n + 1, Client.UpdateRequest(config.baseUrl, m,
                                          Client.AuthentificationToken(server(n, Client.Login(config))).value)).status
                          == Http.StatusOk
    {
      DeployedLogin(config, clock, encode, decode, n);
      var claims := Server.Claims(config.username, clock(n) + Server.TokenLifetime);
      assert clock(n + 1) <= claims.exp;
      forall m
        ensures server(n + 1, Client.UpdateRequest(config.baseUrl, m, encode(claims))).status == Http.StatusOk
      {
        DeployedUpdate(clock, encode, decode, n + 1, config.baseUrl, m, claims);
      }
    }
  }

  /**
   * `update_players` end to end: with accepted credentials, a server whose tokens
   * last 30 minutes, requests that each arrive within 30 minutes of the one before,
   * and a file of valid addresses, every address is updated, with one login and one
   * update each.
   */
  lemma AcceptedClientUpdatesValidFile(config: Client.ClientConfig, clock: nat -> int,
                                       encode: Server.Claims -> string, decode: Decoder,
                                       macs: seq<string>)
    requires Accepted(config) && SignedTokensExpireOnTime(encode, decode) && PromptClock(clock)
    requires forall j :: 0 <= j < |macs| ==> Client.IsValidMac(macs[j])
    ensures var r := Client.UpdateRun(config, Deployed(clock, encode, decode), macs);
            r.outcome == Pass && |r.sent| == 2 * |macs|
  {
    DeployedIsCooperative(config, clock, encode, decode);
    Client.CooperativeServerUpdatesValidFile(config, Deployed(clock, encode, decode), macs);
  }

  /**
   * Without a prompt clock the run can fail on a valid file: when the first update
   * arrives more than 30 minutes after its login, the token has expired, the update
   * is refused with 403 "Token expired", and the run stops there.
   */
  lemma LateFirstUpdateStopsTheRun(config: Client.ClientConfig, clock: nat -> int,
                                   encode: Server.Claims -> string, decode: Decoder, macs: seq<string>)
    requires Accepted(config) && SignedTokensExpireOnTime(encode, decode)
    requires |macs| > 0 && Client.IsValidMac(macs[0])
    requires clock(1) > clock(0) + Server.TokenLifetime
    ensures var token := encode(Server.Claims(config.username, clock(0) + Server.TokenLifetime));
            Client.UpdateRun(config, Deployed(clock, encode, decode), macs)
            == Client.Run([Client.Login(config), Client.UpdateRequest(config.baseUrl, macs[0], token)],
                          Fail(Client.ClientFailure(Client.UpdateRejected(
                            Server.MessageResponse(Http.StatusForbidden, "Token expired").body))))
  {
    var server := Deployed(clock, encode, decode);
    var claims := Server.Claims(config.username, clock(0) + Server.TokenLifetime);
    DeployedLogin(config, clock, encode, decode, 0);
    LateUpdateExpired(clock, encode, decode, 1, config.baseUrl, macs[0], claims);
    var update := Client.UpdateRequest(config.baseUrl, macs[0], encode(claims));
    assert server(1, update) == Server.MessageResponse(Http.StatusForbidden, "Token expired");
    Client.RefusedFirstUpdateStopsTheRun(config, server, macs, encode(claims));
  }

  /**
   * With credentials the server refuses, a run whose first address is valid stops
   * after its first login, with the invalid-credentials error.
   */
  lemma RefusedCredentialsStopAtFirstLogin(config: Client.ClientConfig, clock: nat -> int,
                                           encode: Server.Claims -> string, decode: Decoder,
                                           macs: seq<string>)
    requires !Accepted(config)
    requires |macs| > 0 && Client.IsValidMac(macs[0])
    ensures Client.UpdateRun(config, Deployed(clock, encode, decode), macs)
            == Client.Run([Client.Login(config)], Fail(Client.ClientFailure(Client.InvalidCredentials)))
  {
    LoginTokenIff(config, clock(0), encode, decode);
    Client.RunFromLoginFails(config, Deployed(clock, encode, decode), Client.IsValidMac, macs, 0, [],
                             Client.ClientFailure(Client.InvalidCredentials));
  }
}
