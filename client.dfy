/**
 * The music player client: the MAC address check, the extraction of a login token
 * from the server's reply, and `update_players`, which walks the addresses of a CSV
 * file and, address by address, validates it, logs in for a fresh token and sends
 * the update, stopping at the first failure.
 *
 * The network is an oracle: `server(n, request)` is the response to the `n`-th
 * request of a run, so a run is a function of the addresses and the server.
 */
module Client {
  import opened Results
  import Http
  import MacValidation
  import CsvReader

  /** The reasons `MusicPlayerClientError` is raised with. */
  datatype ClientError =
    | ServerNotAccessible
    | InvalidCredentials
    | InvalidMacAddress(macAddress: string)
    | UpdateRejected(body: Http.Body)

  /** Everything that can end a run early. */
  datatype RunError =
    | ClientFailure(clientError: ClientError)
    | ReaderFailure(readerError: CsvReader.ReaderError)
    | MalformedLoginReply   // `res.json()["token"]` raising on a 200 reply without a token
    | MissingAttribute(name: string)   // `AttributeError` on a method the reader does not have

  /** The server address and the credentials a client is built with. */
  datatype ClientConfig = ClientConfig(baseUrl: string, username: string, password: string)

  /** The two requests the client sends: `POST /login` and `PUT /profiles/clientId:<mac>?token=<token>`. */
  datatype Request =
    | LoginRequest(baseUrl: string, username: string, password: string)
    | UpdateRequest(baseUrl: string, macAddress: string, token: string)

  /** The response to the `n`-th request of a run. */
  type Server = (nat, Request) -> Http.Response

  /** The requests a run sent, in order, and how it ended. */
  datatype Run = Run(sent: seq<Request>, outcome: Outcome<RunError>)

  function Login(config: ClientConfig): Request
  {
    LoginRequest(config.baseUrl, config.username, config.password)
  }

  /** The loop's test: addresses read from the file are strings, so validation never raises. */
  predicate IsValidMac(mac: string)
  {
    MacValidation.ValidateMacAddress(MacValidation.Str(mac)) == Success(true)
  }

  // ---------------------------------------------------------------------------
  // get_authentification_token_id

  /** The string under `token` in a JSON object body, if there is one. */
  function TokenField(body: Http.Body): Option<string>
  {
    if body.JsonBody? && body.value.JObject? && "token" in body.value.fields && body.value.fields["token"].JString?
    then Some(body.value.fields["token"].s)
    else None
  }

  /**
   * What `get_authentification_token_id` makes of the login reply: the token when the
   * status is 200, the invalid-credentials error for any other status.
   */
  function AuthentificationToken(res: Http.Response): (r: Result<string, RunError>)
    ensures r.Success? <==> res.status == Http.StatusOk && TokenField(res.body).Some?
    ensures r.Success? ==> r.value == TokenField(res.body).value
    ensures res.status != Http.StatusOk ==> r == Failure(ClientFailure(InvalidCredentials))
  {
    if res.status != Http.StatusOk then Failure(ClientFailure(InvalidCredentials))
    else match TokenField(res.body)
      case Some(token) => Success(token)
      case None => Failure(MalformedLoginReply)
  }

  // ---------------------------------------------------------------------------
  // update_players, as a specification

  /**
   * The run from address `i` on, after the requests `sent`: validate, log in, update,
   * and go on to the next address only when the update was answered 200.
   */
  function RunFrom(config: ClientConfig, server: Server, valid: string -> bool, macs: seq<string>, i: nat,
                   sent: seq<Request>): Run
    decreases |macs| - i
  {
    if i >= |macs| then Run(sent, Pass)
    else if !valid(macs[i]) then Run(sent, Fail(ClientFailure(InvalidMacAddress(macs[i]))))
    else
      var login := Login(config);
      match AuthentificationToken(server(|sent|, login))
      case Failure(e) => Run(sent + [login], Fail(e))
      case Success(token) =>
        var update := UpdateRequest(config.baseUrl, macs[i], token);
        var res := server(|sent| + 1, update);
        if res.status != Http.StatusOk then Run(sent + [login, update], Fail(ClientFailure(UpdateRejected(res.body))))
        else RunFrom(config, server, valid, macs, i + 1, sent + [login, update])
  }

  /** Past an address that validated, logged in and was updated, the run goes on with the next one. */
  lemma RunFromContinues(config: ClientConfig, server: Server, valid: string -> bool, macs: seq<string>, i: nat,
                         sent: seq<Request>, token: string)
    requires i < |macs| && valid(macs[i])
    requires AuthentificationToken(server(|sent|, Login(config))) == Success(token)
    requires server(|sent| + 1, UpdateRequest(config.baseUrl, macs[i], token)).status == Http.StatusOk
    ensures RunFrom(config, server, valid, macs, i, sent)
            == RunFrom(config, server, valid, macs, i + 1, sent + [Login(config), UpdateRequest(config.baseUrl, macs[i], token)])
  {
  }

  /** An address that fails validation ends the run with nothing more sent. */
  lemma RunFromRejects(config: ClientConfig, server: Server, valid: string -> bool, macs: seq<string>, i: nat,
                       sent: seq<Request>)
    requires i < |macs| && !valid(macs[i])
    ensures RunFrom(config, server, valid, macs, i, sent) == Run(sent, Fail(ClientFailure(InvalidMacAddress(macs[i]))))
  {
  }

  /** A login that yields no token ends the run right after the login. */
  lemma RunFromLoginFails(config: ClientConfig, server: Server, valid: string -> bool, macs: seq<string>, i: nat,
                          sent: seq<Request>, e: RunError)
    requires i < |macs| && valid(macs[i])
    requires AuthentificationToken(server(|sent|, Login(config))) == Failure(e)
    ensures RunFrom(config, server, valid, macs, i, sent) == Run(sent + [Login(config)], Fail(e))
  {
  }

  /** An update answered with another status than 200 ends the run right after the update. */
  lemma RunFromUpdateFails(config: ClientConfig, server: Server, valid: string -> bool, macs: seq<string>, i: nat,
                           sent: seq<Request>, token: string)
    requires i < |macs| && valid(macs[i])
    requires AuthentificationToken(server(|sent|, Login(config))) == Success(token)
    requires server(|sent| + 1, UpdateRequest(config.baseUrl, macs[i], token)).status != Http.StatusOk
    ensures RunFrom(config, server, valid, macs, i, sent)
            == Run(sent + [Login(config), UpdateRequest(config.baseUrl, macs[i], token)],
                   Fail(ClientFailure(UpdateRejected(server(|sent| + 1, UpdateRequest(config.baseUrl, macs[i], token)).body))))
  {
  }

  /** The whole run over `macs`. */
  function UpdateRun(config: ClientConfig, server: Server, macs: seq<string>): Run
  {
    RunFrom(config, server, IsValidMac, macs, 0, [])
  }

  /**
   * Address `j` was validated, then a login was sent, then an update carrying the
   * token that very login returned, and the update was answered 200.
   */
  predicate Completed(config: ClientConfig, server: Server, valid: string -> bool, macs: seq<string>,
                      sent: seq<Request>, j: nat)
  {
    && j < |macs| && 2 * j + 1 < |sent|
    && valid(macs[j])
    && sent[2 * j] == Login(config)
    && AuthentificationToken(server(2 * j, sent[2 * j])).Success?
    && sent[2 * j + 1] == UpdateRequest(config.baseUrl, macs[j], AuthentificationToken(server(2 * j, sent[2 * j])).value)
    && server(2 * j + 1, sent[2 * j + 1]).status == Http.StatusOk
  }

  /**
   * The run `r` stopped at address `k`, after sending nothing for it (invalid address),
   * only the login (no token), or the login and a refused update; nothing was sent after.
   */
  predicate StoppedAt(config: ClientConfig, server: Server, valid: string -> bool, macs: seq<string>, r: Run,
                      k: nat)
  {
    && k < |macs|
    && r.outcome.Fail?
    && (|| (|r.sent| == 2 * k && !valid(macs[k])
            && r.outcome.error == ClientFailure(InvalidMacAddress(macs[k])))
        || (|r.sent| == 2 * k + 1 && valid(macs[k]) && r.sent[2 * k] == Login(config)
            && AuthentificationToken(server(2 * k, r.sent[2 * k])) == Failure(r.outcome.error))
        || (|r.sent| == 2 * k + 2 && valid(macs[k]) && r.sent[2 * k] == Login(config)
            && AuthentificationToken(server(2 * k, r.sent[2 * k])).Success?
            && r.sent[2 * k + 1]
               == UpdateRequest(config.baseUrl, macs[k], AuthentificationToken(server(2 * k, r.sent[2 * k])).value)
            && server(2 * k + 1, r.sent[2 * k + 1]).status != Http.StatusOk
            && r.outcome.error == ClientFailure(UpdateRejected(server(2 * k + 1, r.sent[2 * k + 1]).body))))
  }

  /** A run that stops at address `i` keeps what was sent before and stops there. */
  lemma RunFromStops(config: ClientConfig, server: Server, valid: string -> bool, macs: seq<string>, i: nat,
                     sent: seq<Request>)
    requires i < |macs| && |sent| == 2 * i
    requires || !valid(macs[i])
             || AuthentificationToken(server(|sent|, Login(config))).Failure?
             || server(|sent| + 1, UpdateRequest(config.baseUrl, macs[i],
                                                 AuthentificationToken(server(|sent|, Login(config))).value)).status
                != Http.StatusOk
    ensures sent <= RunFrom(config, server, valid, macs, i, sent).sent
    ensures StoppedAt(config, server, valid, macs, RunFrom(config, server, valid, macs, i, sent), i)
  {
    var r := RunFrom(config, server, valid, macs, i, sent);
    var login := Login(config);
    var token := AuthentificationToken(server(|sent|, login));
    if !valid(macs[i]) {
    } else if token.Failure? {
      assert r.sent == sent + [login] && r.sent[2 * i] == login;
    } else {
      var update := UpdateRequest(config.baseUrl, macs[i], token.value);
      assert r.sent == sent + [login, update] && r.sent[2 * i] == login && r.sent[2 * i + 1] == update;
    }
  }

  /** A run only ever appends to what was sent before it. */
  lemma {:induction false} RunFromExtends(config: ClientConfig, server: Server, valid: string -> bool,
                                          macs: seq<string>, i: nat, sent: seq<Request>)
    ensures sent <= RunFrom(config, server, valid, macs, i, sent).sent
    decreases |macs| - i
  {
    if i < |macs| && valid(macs[i]) {
      var login := Login(config);
      var token := AuthentificationToken(server(|sent|, login));
      if token.Success? {
        var update := UpdateRequest(config.baseUrl, macs[i], token.value);
        if server(|sent| + 1, update).status == Http.StatusOk {
          RunFromExtends(config, server, valid, macs, i + 1, sent + [login, update]);
        }
      }
    }
  }

  /** The address a run continued past is completed in everything the run goes on to send. */
  lemma ContinuedCompletes(config: ClientConfig, server: Server, valid: string -> bool, macs: seq<string>, i: nat,
                           sent: seq<Request>, token: string)
    requires i < |macs| && |sent| == 2 * i && valid(macs[i])
    requires AuthentificationToken(server(|sent|, Login(config))) == Success(token)
    requires server(|sent| + 1, UpdateRequest(config.baseUrl, macs[i], token)).status == Http.StatusOk
    ensures Completed(config, server, valid, macs, RunFrom(config, server, valid, macs, i, sent).sent, i)
  {
    var step := [Login(config), UpdateRequest(config.baseUrl, macs[i], token)];
    RunFromContinues(config, server, valid, macs, i, sent, token);
    RunFromExtends(config, server, valid, macs, i + 1, sent + step);
    var s := RunFrom(config, server, valid, macs, i, sent).sent;
    assert s[2 * i] == (sent + step)[2 * i] && s[2 * i + 1] == (sent + step)[2 * i + 1];
  }

  /** A run from address `i` that passes completed every address from `i` on, two requests each. */
  lemma {:induction false} RunFromPassShape(config: ClientConfig, server: Server, valid: string -> bool,
                                            macs: seq<string>, i: nat, sent: seq<Request>)
    requires i <= |macs| && |sent| == 2 * i
    requires RunFrom(config, server, valid, macs, i, sent).outcome.Pass?
    ensures |RunFrom(config, server, valid, macs, i, sent).sent| == 2 * |macs|
    ensures forall j :: i <= j < |macs| ==> Completed(config, server, valid, macs, RunFrom(config, server, valid, macs, i, sent).sent, j)
    decreases |macs| - i
  {
    if i == |macs| {
      return;
    }
    var login := Login(config);
    var token := AuthentificationToken(server(|sent|, login));
    if !valid(macs[i]) || token.Failure?
       || server(|sent| + 1, UpdateRequest(config.baseUrl, macs[i], token.value)).status != Http.StatusOk {
      RunFromStops(config, server, valid, macs, i, sent);
      return;
    }
    RunFromContinues(config, server, valid, macs, i, sent, token.value);
    RunFromPassShape(config, server, valid, macs, i + 1, sent + [login, UpdateRequest(config.baseUrl, macs[i], token.value)]);
    ContinuedCompletes(config, server, valid, macs, i, sent, token.value);
  }

  /** Every address from `i` up to `k` completed. */
  predicate CompletedBetween(config: ClientConfig, server: Server, valid: string -> bool, macs: seq<string>,
                             sent: seq<Request>, i: nat, k: nat)
  {
    forall j :: i <= j < k ==> Completed(config, server, valid, macs, sent, j)
  }

  /** The run `r` completed every address from `i` up to `k` and stopped at `k`. */
  predicate FailedAt(config: ClientConfig, server: Server, valid: string -> bool, macs: seq<string>, r: Run,
                     i: nat, k: nat)
  {
    i <= k && StoppedAt(config, server, valid, macs, r, k) && CompletedBetween(config, server, valid, macs, r.sent, i, k)
  }

  /**
   * A run from address `i` that fails stopped at some address `k`, having completed
   * every address from `i` up to `k` and sent nothing after.
   */
  lemma {:induction false} RunFromFailShape(config: ClientConfig, server: Server, valid: string -> bool,
                                            macs: seq<string>, i: nat, sent: seq<Request>)
    requires i <= |macs| && |sent| == 2 * i
    requires RunFrom(config, server, valid, macs, i, sent).outcome.Fail?
    ensures exists k :: FailedAt(config, server, valid, macs, RunFrom(config, server, valid, macs, i, sent), i, k)
    decreases |macs| - i
  {
    var r := RunFrom(config, server, valid, macs, i, sent);
    var login := Login(config);
    var token := AuthentificationToken(server(|sent|, login));
    if !valid(macs[i]) || token.Failure?
       || server(|sent| + 1, UpdateRequest(config.baseUrl, macs[i], token.value)).status != Http.StatusOk {
      RunFromStops(config, server, valid, macs, i, sent);
      assert FailedAt(config, server, valid, macs, r, i, i);
      return;
    }
    RunFromContinues(config, server, valid, macs, i, sent, token.value);
    RunFromFailShape(config, server, valid, macs, i + 1, sent + [login, UpdateRequest(config.baseUrl, macs[i], token.value)]);
    ContinuedCompletes(config, server, valid, macs, i, sent, token.value);
    var k :| FailedAt(config, server, valid, macs, r, i + 1, k);
    assert FailedAt(config, server, valid, macs, r, i, k);
  }

  /**
   * A run that passes sent one login and one update per address, in file order, each
   * address validated before its login and each update carrying its own fresh token,
   * and every update was answered 200.
   */
  lemma PassedRunCompletedEveryAddress(config: ClientConfig, server: Server, macs: seq<string>)
    requires UpdateRun(config, server, macs).outcome.Pass?
    ensures |UpdateRun(config, server, macs).sent| == 2 * |macs|
    ensures forall j :: 0 <= j < |macs| ==> Completed(config, server, IsValidMac, macs, UpdateRun(config, server, macs).sent, j)
  {
    RunFromPassShape(config, server, IsValidMac, macs, 0, []);
  }

  /**
   * A run that fails stopped at one address `k`: every address before it completed,
   * and no request was sent for any address after it.
   */
  lemma FailedRunStoppedAtFirstFailure(config: ClientConfig, server: Server, macs: seq<string>)
    requires UpdateRun(config, server, macs).outcome.Fail?
    ensures exists k :: FailedAt(config, server, IsValidMac, macs, UpdateRun(config, server, macs), 0, k)
  {
    RunFromFailShape(config, server, IsValidMac, macs, 0, []);
  }

  /** Fail-fast: once a run fails, addresses appended after the list change nothing. */
  lemma {:induction false} FailedRunIgnoresLaterAddresses(config: ClientConfig, server: Server, valid: string -> bool,
                                                          macs: seq<string>, more: seq<string>, i: nat,
                                                          sent: seq<Request>)
    requires i <= |macs| && RunFrom(config, server, valid, macs, i, sent).outcome.Fail?
    ensures RunFrom(config, server, valid, macs + more, i, sent) == RunFrom(config, server, valid, macs, i, sent)
    decreases |macs| - i
  {
    if i < |macs| {
      assert (macs + more)[i] == macs[i];
      if valid(macs[i]) {
        var login := Login(config);
        var token := AuthentificationToken(server(|sent|, login));
        if token.Success? {
          var update := UpdateRequest(config.baseUrl, macs[i], token.value);
          if server(|sent| + 1, update).status == Http.StatusOk {
            FailedRunIgnoresLaterAddresses(config, server, valid, macs, more, i + 1, sent + [login, update]);
          }
        }
      }
    }
  }

  /**
   * A server that answers every login with `config`'s credentials with a token, and
   * accepts every update that carries the token of the login just before it.
   */
  ghost predicate Cooperative(config: ClientConfig, server: Server)
  {
    forall n: nat ::
      && AuthentificationToken(server(n, Login(config))).Success?
      && forall m :: server(n + 1, UpdateRequest(config.baseUrl, m, AuthentificationToken(server(n, Login(config))).value)).status
                     == Http.StatusOk
  }

  /** Against a cooperative server, a list of valid addresses is updated completely. */
  lemma {:induction false} CooperativeServerUpdatesAll(config: ClientConfig, server: Server, valid: string -> bool,
                                                       macs: seq<string>, i: nat, sent: seq<Request>)
    requires Cooperative(config, server) && i <= |macs|
    requires forall j :: 0 <= j < |macs| ==> valid(macs[j])
    ensures RunFrom(config, server, valid, macs, i, sent).outcome == Pass
    ensures |RunFrom(config, server, valid, macs, i, sent).sent| == |sent| + 2 * (|macs| - i)
    decreases |macs| - i
  {
    if i < |macs| {
      var login := Login(config);
      var token := AuthentificationToken(server(|sent|, login));
      assert token.Success?;
      var update := UpdateRequest(config.baseUrl, macs[i], token.value);
      assert server(|sent| + 1, update).status == Http.StatusOk;
      CooperativeServerUpdatesAll(config, server, valid, macs, i + 1, sent + [login, update]);
    }
  }

  /** Fail-fast for a whole run: once it fails, addresses after the list change nothing. */
  lemma FailedUpdateIgnoresLaterAddresses(config: ClientConfig, server: Server, macs: seq<string>, more: seq<string>)
    requires UpdateRun(config, server, macs).outcome.Fail?
    ensures UpdateRun(config, server, macs + more) == UpdateRun(config, server, macs)
  {
    FailedRunIgnoresLaterAddresses(config, server, IsValidMac, macs, more, 0, []);
  }

  /** A file of valid addresses, sent to a cooperative server, is updated completely. */
  lemma CooperativeServerUpdatesValidFile(config: ClientConfig, server: Server, macs: seq<string>)
    requires Cooperative(config, server)
    requires forall j :: 0 <= j < |macs| ==> IsValidMac(macs[j])
    ensures UpdateRun(config, server, macs).outcome == Pass
    ensures |UpdateRun(config, server, macs).sent| == 2 * |macs|
  {
    CooperativeServerUpdatesAll(config, server, IsValidMac, macs, 0, []);
  }

  /** An invalid address at the head of the list ends the run before any request. */
  lemma InvalidFirstAddressSendsNothing(config: ClientConfig, server: Server, macs: seq<string>)
    requires |macs| > 0 && !IsValidMac(macs[0])
    ensures UpdateRun(config, server, macs) == Run([], Fail(ClientFailure(InvalidMacAddress(macs[0]))))
  {
  }

  /** A refused first update ends the run after one login and that update, with the refusal's body. */
  lemma RefusedFirstUpdateStopsTheRun(config: ClientConfig, server: Server, macs: seq<string>, token: string)
    requires |macs| > 0 && IsValidMac(macs[0])
    requires AuthentificationToken(server(0, Login(config))) == Success(token)
    requires server(1, UpdateRequest(config.baseUrl, macs[0], token)).status != Http.StatusOk
    ensures UpdateRun(config, server, macs)
            == Run([Login(config), UpdateRequest(config.baseUrl, macs[0], token)],
                   Fail(ClientFailure(UpdateRejected(server(1, UpdateRequest(config.baseUrl, macs[0], token)).body))))
  {
    var none: seq<Request> := [];
    assert |none| == 0 && none + [Login(config), UpdateRequest(config.baseUrl, macs[0], token)]
                          == [Login(config), UpdateRequest(config.baseUrl, macs[0], token)];
    RunFromUpdateFails(config, server, IsValidMac, macs, 0, none, token);
  }

  // ---------------------------------------------------------------------------
  // update_players as written

  /**
   * `update_players` as the source spells it: it asks the reader for
   * `get_mac_address_list`, which the reader does not define, so once the file has
   * been read the call raises `AttributeError` before any request is sent.
   */
  function UpdatePlayersAsWritten(csvFile: string, isFile: bool, rows: seq<seq<string>>): Run
    requires CsvReader.WellShaped(rows)
  {
    match CsvReader.Load(csvFile, isFile, rows)
    case Failure(e) => Run([], Fail(ReaderFailure(e)))
    case Success(_) => Run([], Fail(MissingAttribute("get_mac_address_list")))
  }

  /** As written, no file makes `update_players` send a single request, and every call fails. */
  lemma AsWrittenNeverUpdates(csvFile: string, isFile: bool, rows: seq<seq<string>>)
    requires CsvReader.WellShaped(rows)
    ensures UpdatePlayersAsWritten(csvFile, isFile, rows).sent == []
    ensures UpdatePlayersAsWritten(csvFile, isFile, rows).outcome.Fail?
    ensures CsvReader.Load(csvFile, isFile, rows).Success? ==>
              UpdatePlayersAsWritten(csvFile, isFile, rows).outcome == Fail(MissingAttribute("get_mac_address_list"))
  {
  }

  /**
   * The discrepancy on one input: `players.csv` holding one player with a valid
   * address, such as `02:00:00:00:00:01`, loads, and against a server that grants
   * every login and accepts every update the intended run updates that player, while
   * the code as written fails without sending a request.
   */
  lemma AsWrittenFailsOnValidFile(config: ClientConfig, server: Server, mac: string)
    requires Cooperative(config, server) && IsValidMac(mac)
    ensures CsvReader.WellShaped(CsvReader.OnePlayerRows(mac))
    ensures CsvReader.Load("players.csv", true, CsvReader.OnePlayerRows(mac))
            == Success(CsvReader.Registry([mac], ["a1"], ["b1"], ["c1"]))
    ensures UpdatePlayersAsWritten("players.csv", true, CsvReader.OnePlayerRows(mac))
            == Run([], Fail(MissingAttribute("get_mac_address_list")))
    ensures UpdateRun(config, server, [mac]).outcome == Pass
    ensures |UpdateRun(config, server, [mac]).sent| == 2
  {
    MacValidation.ValidIsNonEmpty(mac);
    CsvReader.OnePlayerFileLoads(mac);
    CooperativeServerUpdatesValidFile(config, server, [mac]);
  }

  // ---------------------------------------------------------------------------
  // The client object

  /** `MusicPlayerClient`: the base URL and credentials it was built with. */
  class MusicPlayerClient {
    const baseUrl: string
    const username: string
    const password: string

    function Config(): ClientConfig
    {
      ClientConfig(baseUrl, username, password)
    }

    constructor (baseUrl: string, username: string, password: string)
      ensures Config() == ClientConfig(baseUrl, username, password)
    {
      this.baseUrl := baseUrl;
      this.username := username;
      this.password := password;
    }

    /**
     * `update_players`: read the CSV file, then for each address in order validate it,
     * log in for a fresh token and send the update, raising at the first failure.
     * `isFile` and `rows` stand for the file system and the CSV tokeniser.
     */
    method UpdatePlayers(csvFile: string, isFile: bool, rows: seq<seq<string>>, server: Server)
      returns (outcome: Outcome<RunError>, sent: seq<Request>)
      requires CsvReader.WellShaped(rows)
      ensures match CsvReader.Load(csvFile, isFile, rows)
              case Failure(e) => outcome == Fail(ReaderFailure(e)) && sent == []
              case Success(registry) => Run(sent, outcome) == UpdateRun(Config(), server, registry.macAddresses)
    {
      var openResult := CsvReader.Open(csvFile, isFile, rows);
      if openResult.Failure? {
        return Fail(ReaderFailure(openResult.error)), [];
      }
      var reader := openResult.value;
      var macAddressList := reader.GetMacAddress();
      outcome, sent := UpdateEach(macAddressList, server);
    }

    /** The loop of `update_players` over the addresses read from the file. */
    method UpdateEach(macAddressList: seq<string>, server: Server) returns (outcome: Outcome<RunError>, sent: seq<Request>)
      ensures Run(sent, outcome) == UpdateRun(Config(), server, macAddressList)
    {
      var config := Config();
      sent := [];
      var i := 0;
      while i < |macAddressList|
        invariant i <= |macAddressList|
        invariant RunFrom(config, server, IsValidMac, macAddressList, i, sent)
                  == RunFrom(config, server, IsValidMac, macAddressList, 0, [])
      {
        var macAddress := macAddressList[i];
        var valid := MacValidation.ValidateMacAddress(MacValidation.Str(macAddress));
        if !(valid.Success? && valid.value) {
          RunFromRejects(config, server, IsValidMac, macAddressList, i, sent);
          return Fail(ClientFailure(InvalidMacAddress(macAddress))), sent;
        }
        var login := Login(config);
        var token := AuthentificationToken(server(|sent|, login));
        if token.Failure? {
          RunFromLoginFails(config, server, IsValidMac, macAddressList, i, sent, token.error);
          return Fail(token.error), sent + [login];
        }
        var update := UpdateRequest(baseUrl, macAddress, token.value);
        var res := server(|sent| + 1, update);
        if res.status != Http.StatusOk {
          RunFromUpdateFails(config, server, IsValidMac, macAddressList, i, sent, token.value);
          return Fail(ClientFailure(UpdateRejected(res.body))), sent + [login, update];
        }
        RunFromContinues(config, server, IsValidMac, macAddressList, i, sent, token.value);
        sent := sent + [login, update];
        i := i + 1;
      }
      return Pass, sent;
    }
  }

  /**
   * Building a client: `__init__` stores its arguments and probes the base URL,
   * raising when the server cannot be reached.
   */
  method Connect(baseUrl: string, username: string, password: string, reachable: bool)
    returns (r: Result<MusicPlayerClient, ClientError>)
    ensures r.Failure? <==> !reachable
    ensures r.Failure? ==> r.error == ServerNotAccessible
    ensures r.Success? ==> fresh(r.value) && r.value.Config() == ClientConfig(baseUrl, username, password)
  {
    var client := new MusicPlayerClient(baseUrl, username, password);
    if !reachable {
      return Failure(ServerNotAccessible);
    }
    return Success(client);
  }
}
