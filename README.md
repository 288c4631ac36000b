# player-tech-assignment, modelled in Dafny

This project models three parts of the player-tech-assignment music player update system.

- **The client** (`client.py`):
  - the MAC address validator `_validate_mac_address`;
  - the token extraction `get_authentification_token_id`;
  - the batch updater `update_players`. For each address read from a CSV file, it validates the address, logs in for a fresh token and sends the software update. It stops at the first failure.
- **The CSV reader** (`csv_reader.py`):
  - the existence check and the `.csv` suffix check of `__init__`;
  - the header and row checks of `read`, which append each data row's four fields to four parallel lists;
  - `get_mac_address`.
- **The update server** (`server/server.py`):
  - the `check_for_token` gate;
  - the `login` rule and the session flag it sets;
  - the `update` and `view` endpoints.

Modules:

| file | module | contents |
|---|---|---|
| `results.dfy` | `Results` | `Option`, `Result`, and `Outcome` (raised or not) |
| `http.dfy` | `Http` | JSON values, response bodies and status codes |
| `mac_address.dfy` | `MacValidation` | the validator as a matcher of the regular expression. Python's `$` also accepts one trailing newline. |
| `csv_reader.dfy` | `CsvReader` | the reader as a class, plus `ReadRows` and `Load`, pure specifications of what reading and opening yield |
| `server.dfy` | `Server` | the token gate, login and the protected views |
| `client.dfy` | `Client` | the client class and `RunFrom`. `RunFrom` is the run of `update_players` as a function of the addresses and of the server's answers. |
| `protocol.dfy` | `Protocol` | the server's handlers answering the client's two requests. With tokens that expire 30 minutes after login, the deployed pair updates every valid address when each request arrives within 30 minutes of the one before; a later update is refused as expired. |

How the outside world is abstracted:

- **The network.** It is an oracle `server(n, request)`: the response to the `n`-th request of a run.
- **JWT.** Encoding is a function from claims to a token. Decoding is a function from a token and the moment of decoding to an outcome: decoded, expired, bad signature, or another decoding error.
- **The clock.** It is an integer number of seconds.
- **The CSV file.** It is given as its tokenised rows, with a flag saying whether the path names a file.

The model follows the code where other parts of the repository expect something else:

- `update_players` calls `reader.get_mac_address_list()` at `client.py:137`, but the reader only defines `get_mac_address`. See Findings. The rest of the model uses the `mac_addresses` column.
- The tests import `MusicPlayerCsvReaderError`, but the reader defines `MusicPlayerCsvReaderException`. The model has one error type, `CsvReader.ReaderError`, whose constructors are the messages the reader raises with.
- The client tests expect status 404 for the token `"aleatory"` and 401 for an unregistered MAC address. The code does something else:
  - The token gate catches only expired and badly signed tokens. Any other decoding error escapes the view, and Flask answers it with 500.
  - `update` has no registry check, so it answers 200 for any address.

## Model

| member | source | states |
|---|---|---|
| MacValidation.MatchesMacPattern | player_tech_assignment/client.py:58 | `re.match` of the pattern on the lowered string: two hex digits, an optional `-` or `:` captured, two hex digits, then four times the captured separator and two hex digits, then the end or one final newline. `ValidIffSpelled`, `MatchIsSpelled` and `SpelledIsMatched` characterise it |
| MacValidation.ValidateMacAddress | player_tech_assignment/client.py:55-58 | a non-string argument raises, carrying its type name; a string is never an error |
| MacValidation.Lower | player_tech_assignment/client.py:58 | `lower()` keeps the length and maps every character independently |
| MacValidation.ValidationIgnoresCase | player_tech_assignment/client.py:58 | the verdict on `s` equals the verdict on `lower(s)` |
| MacValidation.LowerIsIdempotent | player_tech_assignment/client.py:58 | lowering twice is lowering once |
| MacValidation.LowerKeepsLowerCase | player_tech_assignment/client.py:58 | a string without upper-case letters is its own lower-case form |
| MacValidation.ValidIffSpelled | player_tech_assignment/client.py:58 | a string is accepted iff its lower-case form is six hex pairs joined by one separator from {none, `:`, `-`}, optionally followed by one newline |
| MacValidation.MatchIsSpelled | player_tech_assignment/client.py:58 | every string the pattern matches has such a spelling |
| MacValidation.SpelledIsMatched | player_tech_assignment/client.py:58 | every such spelling is matched by the pattern |
| MacValidation.MatchSpelling | player_tech_assignment/client.py:58 | a match yields its six groups, its separator and its line end |
| MacValidation.MatchEnd | player_tech_assignment/client.py:58 | in a match the back-referenced groups end at 12 (no separator) or 17 (one separator), and only a line end follows |
| MacValidation.AcceptedLength | player_tech_assignment/client.py:58 | a match has 12, 13, 17 or 18 characters; it has 13 or 18 exactly when it ends in a newline |
| MacValidation.AcceptedChars | player_tech_assignment/client.py:58 | every non-hex character of a match is the separator captured at position 2, or the final newline |
| MacValidation.AcceptedShape | player_tech_assignment/client.py:58 | the length and character facts together |
| MacValidation.RejectsMixedSeparators | player_tech_assignment/client.py:58 | a string containing both `:` and `-` is rejected |
| MacValidation.RejectsWord | tests/test_client.py:47 | `"potato"` is rejected |
| MacValidation.AcceptsGeneratedTestAddress | tests/test_client.py:43-52 | every `02:00:00:xx:yy:zz` with lower-case hex pairs is accepted |
| MacValidation.GeneratedTestAddressSpells | tests/test_client.py:43-45 | such an address is spelled by its six groups and `:` |
| MacValidation.ValidIsNonEmpty | player_tech_assignment/client.py:58 | an accepted address has at least 12 characters |
| MacValidation.PrefixedIsMatched | player_tech_assignment/client.py:58 | the repeated group `(\1[0-9a-f]{2})` consumes exactly a separator-prefixed run of hex pairs |
| MacValidation.MatchedGroups | player_tech_assignment/client.py:58 | conversely, what the repeated group consumed is such a run, group by group |
| MacValidation.MatchedEnd | player_tech_assignment/client.py:58 | the repeated group ends 2 or 3 characters per repetition further on |
| MacValidation.MatchedChars | player_tech_assignment/client.py:58 | the repeated group consumes only hex digits and the separator |
| CsvReader.RFind | player_tech_assignment/csv_reader.py:35 | the last occurrence of a character, or -1, as the path suffix is computed |
| CsvReader.Name | player_tech_assignment/csv_reader.py:32 | the name of `Path(csv_file)`: the last component once pathlib has dropped empty and `.` components, or "". It is empty or a component: not `.` and free of slashes. The four lemmas below determine it on every path |
| CsvReader.NameOfComponent | player_tech_assignment/csv_reader.py:32 | a path ending in a component is named by that component |
| CsvReader.NameSkipsSlash | player_tech_assignment/csv_reader.py:32 | a trailing slash leaves the name unchanged |
| CsvReader.NameSkipsDot | player_tech_assignment/csv_reader.py:32 | a trailing `/.` leaves the name unchanged |
| CsvReader.NameOfNothing | player_tech_assignment/csv_reader.py:32 | neither "" nor "." has a name |
| CsvReader.Suffix | player_tech_assignment/csv_reader.py:35 | `Path.suffix`: either "" or a dot followed by at least one dot-free character, ending the name and shorter than it |
| CsvReader.SuffixIgnoresTrailer | player_tech_assignment/csv_reader.py:32-35 | a trailing slash or `/.` leaves the suffix unchanged |
| CsvReader.CsvSuffixIff | player_tech_assignment/csv_reader.py:35 | the suffix is `.csv` iff the file name is longer than four characters and ends in `.csv` |
| CsvReader.CsvNamedFileHasSuffix | player_tech_assignment/csv_reader.py:35 | a plain stem followed by `.csv` has suffix `.csv` |
| CsvReader.MissingFileReportedFirst | player_tech_assignment/csv_reader.py:33-34 | a path that is not a file raises "file not found", whatever its suffix and contents |
| CsvReader.ExtensionCheckedSecond | player_tech_assignment/csv_reader.py:35-36 | an existing file raises the extension error iff its name does not end in `.csv` |
| CsvReader.TrailerKeepsLoad | player_tech_assignment/csv_reader.py:32-37 | an existing path with `/.` appended opens exactly when the path does, and then reads the same registry |
| CsvReader.TrailingDotPathLoads | player_tech_assignment/csv_reader.py:32-37 | `<stem>.csv/.` holding one player loads that player |
| CsvReader.HeaderError | player_tech_assignment/csv_reader.py:45-53 | the header check in column order. `HeaderErrorIsFirstMismatch` and `HeaderAcceptedIff` characterise it |
| CsvReader.HeaderErrorIsFirstMismatch | player_tech_assignment/csv_reader.py:45-53 | the header error names column k iff column k lacks its name as a substring and every earlier column has its own |
| CsvReader.HeaderAcceptedIff | player_tech_assignment/csv_reader.py:45-53 | the header passes iff columns 0-3 contain `mac_addresses`, `id1`, `id2`, `id3` as substrings |
| CsvReader.DecoratedHeaderAccepted | player_tech_assignment/csv_reader.py:46-53 | containment, not equality: decorated column names pass |
| CsvReader.FirstEmptyRow | player_tech_assignment/csv_reader.py:55-57 | the first data row with an empty field among its first four, or the end |
| CsvReader.ReadError | player_tech_assignment/csv_reader.py:43-57 | what `read` raises: the header error, else "has empty elements" at the first data row with an empty field. `ReadFailsIff` and `EmptyElementRejected` characterise it |
| CsvReader.AppendedRows | player_tech_assignment/csv_reader.py:55-61 | the data rows `read` appends: those before the first failing row. `Read` and `ReadRows` state what the lists then hold |
| CsvReader.ReadRows | player_tech_assignment/csv_reader.py:39-62 | after a successful read the four lists are as long as the data rows, and entry i is field 0-3 of data row i verbatim; the header is never stored |
| CsvReader.ReadFailsIff | player_tech_assignment/csv_reader.py:43-57 | reading fails iff there are rows and either the header fails or some data row has an empty field |
| CsvReader.EmptyElementRejected | player_tech_assignment/csv_reader.py:56-57 | a data row with an empty field raises "has empty elements" once the header passed |
| CsvReader.NoDataRowsGiveEmptyLists | player_tech_assignment/csv_reader.py:27-31 | no rows, or only a valid header, gives four empty lists without error |
| CsvReader.OnePlayerRowsRead | player_tech_assignment/csv_reader.py:39-62 | a header and one data row give one entry per list |
| CsvReader.OnePlayerFileLoads | player_tech_assignment/csv_reader.py:20-37 | `players.csv` holding such rows opens with that registry |
| CsvReader.Load | player_tech_assignment/csv_reader.py:20-37 | what constructing a reader yields: file-not-found first, then the extension error, then what `read` gives. `MissingFileReportedFirst`, `ExtensionCheckedSecond` and `Open` characterise it |
| CsvReader.ExtendByRow | player_tech_assignment/csv_reader.py:58-61 | appending one more row appends one field to each list |
| CsvReader.ExtendKeepsParallel | player_tech_assignment/csv_reader.py:58-61 | appending rows grows every list by the number of rows |
| CsvReader.MusicPlayerCsvReader.constructor | player_tech_assignment/csv_reader.py:27-32 | the dictionary starts as four empty lists, and the path is stored |
| CsvReader.MusicPlayerCsvReader.Read | player_tech_assignment/csv_reader.py:39-62 | the loop raises exactly the error the specification `ReadError` names, and the lists become the old lists extended by the data rows read before the raise. Rows appended before a failing row stay appended. |
| CsvReader.MusicPlayerCsvReader.GetMacAddress | player_tech_assignment/csv_reader.py:65-66 | the mac_addresses list, as long as each id list |
| CsvReader.Open | player_tech_assignment/csv_reader.py:20-37 | construction raises exactly the error of `Load`; otherwise the reader holds what `Load` yields |
| Server.TokenGate | player_tech_assignment/server/server.py:44-53 | the decision of `check_for_token` in order: missing token, then expired, then bad signature, else admit; other decoding errors escape. The three lemmas below characterise it |
| Server.CheckForToken | player_tech_assignment/server/server.py:42-54 | the wrapped view: its response when admitted, the refusal or the escaping error otherwise |
| Server.ViewRunsIffTokenDecodes | player_tech_assignment/server/server.py:43-53 | the wrapped view runs iff a non-empty token decodes; otherwise its result is not used |
| Server.MissingTokenRefused | player_tech_assignment/server/server.py:44-46 | a missing or empty token gets 403 "Missing token", whatever the decoder and the view |
| Server.BadTokensRefused | player_tech_assignment/server/server.py:47-52 | expired gives 403 "Token expired", bad signature 403 "Invalid token", any other decoding error escapes |
| Server.LoginReply | player_tech_assignment/server/server.py:88-95 | the reply of `login` to a form. `LoginSucceedsIff`, `RefusedLoginAsksForCredentials`, `EmptyUserNameShortCircuits` and `Protocol.MissingFormFieldIsBadRequest` characterise it |
| Server.LoginSucceedsIff | player_tech_assignment/server/server.py:88-93 | login answers 200 iff the user name is non-empty and the password is `password`; the token's claims are the user and now plus 30 minutes |
| Server.RefusedLoginAsksForCredentials | player_tech_assignment/server/server.py:94-95 | a refused login with both fields is 401 "Could not verify!" with a WWW-Authenticate header |
| Server.EmptyUserNameShortCircuits | player_tech_assignment/server/server.py:88 | an empty user name is refused without the password being read |
| Server.Session.constructor | player_tech_assignment/server/server.py:89 | a fresh session holds nothing |
| Server.Login | player_tech_assignment/server/server.py:88-95 | replies as the login rule says; sets `logged_in` exactly when login is granted and leaves the session alone otherwise |
| Server.UpdateView | player_tech_assignment/server/server.py:104-106 | the body of `update`: the request JSON with status 200 |
| Server.Update | player_tech_assignment/server/server.py:97-106 | `update` behind the gate. `UpdateEchoesForAnyAddress` characterises it |
| Server.UpdateEchoesForAnyAddress | player_tech_assignment/server/server.py:97-106 | an admitted update is 200 with the request JSON unchanged, and the reply does not depend on the MAC address |
| Server.View | player_tech_assignment/server/server.py:75-82 | `view` behind the gate. `ViewSharesTheGate` characterises it |
| Server.ViewSharesTheGate | player_tech_assignment/server/server.py:75-82 | an admitted `view` answers "You got me!"; otherwise it is refused exactly as `update` is |
| Client.AuthentificationToken | player_tech_assignment/client.py:120-124 | a token comes back iff the status is 200 (and the body carries one); any other status is the invalid-credentials error |
| Client.RunFrom | player_tech_assignment/client.py:139-147 | the loop from address i on: validate, log in, update, and continue only on a 200 update. The lemmas below characterise it |
| Client.UpdateRun | player_tech_assignment/client.py:139-147 | the whole loop over the address list, with nothing sent yet |
| Client.RunFromExtends | player_tech_assignment/client.py:139-147 | requests are only ever appended |
| Client.RunFromPassShape | player_tech_assignment/client.py:139-147 | a run that does not raise sent two requests per address, and each address was valid, logged in for and updated with 200, in order |
| Client.RunFromFailShape | player_tech_assignment/client.py:139-147 | a run that raises stopped at some address k: every earlier address completed, and nothing after k was sent |
| Client.PassedRunCompletedEveryAddress | player_tech_assignment/client.py:139-147 | the same from the start of the list: one login and one update per address |
| Client.FailedRunStoppedAtFirstFailure | player_tech_assignment/client.py:140-147 | fail-fast from the start of the list |
| Client.FailedRunIgnoresLaterAddresses | player_tech_assignment/client.py:140-147 | once a run raises, appending addresses to the list changes nothing |
| Client.FailedUpdateIgnoresLaterAddresses | player_tech_assignment/client.py:140-147 | the same for `update_players` on its own list |
| Client.CooperativeServerUpdatesAll | player_tech_assignment/client.py:139-147 | with a server that grants every login and accepts every update, all-valid addresses complete with two requests each |
| Client.CooperativeServerUpdatesValidFile | player_tech_assignment/client.py:139-147 | the same for `update_players` from the start |
| Client.InvalidFirstAddressSendsNothing | player_tech_assignment/client.py:140-141 | validation precedes any request: an invalid first address sends nothing |
| Client.RefusedFirstUpdateStopsTheRun | player_tech_assignment/client.py:145-147 | a refused first update ends the run after one login and that update, with the refusal's body |
| Client.UpdatePlayersAsWritten | player_tech_assignment/client.py:136-137 | `update_players` as written: the reader's error, or the missing-attribute error after a successful read. `AsWrittenNeverUpdates` characterises it |
| Client.AsWrittenNeverUpdates | player_tech_assignment/client.py:136-137 | as written, `update_players` never sends a request and always raises; after a successful read it raises the missing-attribute error |
| Client.AsWrittenFailsOnValidFile | player_tech_assignment/client.py:136-147 | a one-player file that reads correctly fails as written, although the intended loop updates it against a cooperative server |
| Client.MusicPlayerClient.constructor | player_tech_assignment/client.py:34-36 | the base URL and credentials are stored |
| Client.MusicPlayerClient.UpdatePlayers | player_tech_assignment/client.py:136-147 | a reader error is raised with nothing sent; otherwise the run is `update_players`' run over the file's mac_addresses column |
| Client.MusicPlayerClient.UpdateEach | player_tech_assignment/client.py:139-147 | the loop sends exactly the requests, and ends exactly as, the specification run `UpdateRun` says |
| Client.Connect | player_tech_assignment/client.py:34-42 | construction fails, with "server is not accessible", iff the base URL is unreachable |
| Protocol.Served | player_tech_assignment/server/server.py:47-53 | a reply is sent as is; an escaping missing-field error is 400, an escaping decoding error 500 |
| Protocol.MissingFormFieldIsBadRequest | player_tech_assignment/server/server.py:88 | a login form missing a field that is read is answered 400 |
| Protocol.Answer | player_tech_assignment/server/server.py:88-106 | the server's reply to one client request at a given moment. `LoginTokenIff` and `UpdateAcceptedIff` characterise it |
| Protocol.Deployed | player_tech_assignment/server/server.py:88-106 | the server as the client's oracle: request n is answered at `clock(n)` |
| Protocol.LoginTokenIff | player_tech_assignment/client.py:120-124 | against the server's login, the client gets a token iff its credentials are accepted. The token encodes the user and the expiry; otherwise the error is invalid credentials. |
| Protocol.UpdateAcceptedIff | player_tech_assignment/server/server.py:44-53 | the client's update is answered 200 with its profile echoed iff its token is non-empty and decodes. It gets 403 iff the token is empty, expired or badly signed, and 500 iff decoding fails otherwise. |
| Protocol.DeployedLogin | player_tech_assignment/server/server.py:88-93 | every login by accepted credentials yields the token for that moment |
| Protocol.DeployedUpdate | player_tech_assignment/server/server.py:47-53 | an update carrying a token the server signed is answered 200 while the token has not expired |
| Protocol.LateUpdateExpired | player_tech_assignment/server/server.py:49-50 | after the token's expiry, the same update is answered 403 "Token expired" |
| Protocol.DeployedIsCooperative | player_tech_assignment/server/server.py:88-106 | for accepted credentials, and requests that each arrive within 30 minutes of the one before, the deployed server grants every login and accepts the next update carrying its token |
| Protocol.AcceptedClientUpdatesValidFile | player_tech_assignment/client.py:139-147 | with accepted credentials and such a clock, every address of an all-valid list is updated, with one login and one update each |
| Protocol.LateFirstUpdateStopsTheRun | player_tech_assignment/client.py:143-147 | when the first update arrives more than 30 minutes after its login, it is refused as expired and the run stops there |
| Protocol.RefusedCredentialsStopAtFirstLogin | player_tech_assignment/client.py:143 | with refused credentials the run stops at its first login with invalid credentials |

## Left out

- The network: `requests.get/post/put` are replaced by the `reachable` flag and the `server` oracle. URL formatting is left out: a request records its base URL, MAC address and token.
- JWT signing and decoding, and `SECRET_KEY`, are the `encode` and `decode` parameters. `SignedTokensExpireOnTime` assumes that a token the server signed decodes up to its `exp` claim and is expired after it, as PyJWT's expiry check does. Signature forgery and leeway are not modelled.
- `datetime.utcnow()` is the `now` parameter, or `clock(n)` for the deployed server.
- Flask plumbing is left out: the app and URL rules, `home`, `render_template`, and the `print` calls in the views. Only the `session['logged_in']` write is modelled.
- The filesystem (`Path.is_file`, `open`) and the `csv.reader` tokeniser, with its space delimiter and `|` quote character, are left out. The reader receives the rows and an is-file flag.
- `cli.py`, `setup.py` and `__init__.py` are outside the core.
- MacValidation.Lower: only ASCII letters are lowered. A non-ASCII character whose Python lower-case form is an ASCII letter is never a hex digit or a separator, so validation is unaffected.
- CsvReader.MusicPlayerCsvReader.Read: every row must have at least four fields (the `WellShaped` precondition), so the model says nothing about files with shorter rows. In Python such a row usually raises an unguarded `IndexError`, but not always. A short header whose present columns already fail raises the column-name error (csv_reader.py:46-47). A short data row with an empty field among those present raises "has empty elements", because the `or` stops there (csv_reader.py:56-57). A short row after the first failing row is never read.
- Client.AuthentificationToken: a 200 reply without a string under `token` is the `MalformedLoginReply` error. Python would raise a `KeyError` or return the non-string value.
- Client.MusicPlayerClient.UpdatePlayers: it models the evidently intended accessor. The call as written is modelled by `Client.UpdatePlayersAsWritten`.

## Findings

| source | as written | input that shows it | evidently intended | confidence | as-written member | corrected member |
|---|---|---|---|---|---|---|
| player_tech_assignment/client.py:137 | `update_players` calls `reader.get_mac_address_list()`, which `MusicPlayerCsvReader` does not define, so it raises `AttributeError` after every successful read | `players.csv` with header `mac_addresses id1 id2 id3` and one row `<valid mac> a1 b1 c1` | take the `mac_addresses` list from `get_mac_address()` and update each address | not executed | Client.AsWrittenFailsOnValidFile | Client.MusicPlayerClient.UpdatePlayers |
