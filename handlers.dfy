/**
 * The decision logic of the request handlers in import_os.py: `ping`,
 * `login`, `deserialize_json` and `get_user`. Each handler is a function from
 * its (abstracted) request inputs to a status code and a JSON body.
 */
module Handlers {
  import opened Wrappers
  import opened Hostname
  import opened UserStore

  const HOST_REQUIRED := "host parameter required"
  const INVALID_HOST := "invalid host"
  const AUTH_NOT_CONFIGURED := "authentication not configured"
  const LOGIN_SUCCESSFUL := "login successful"
  const LOGIN_FAILED := "login failed"
  const INVALID_JSON := "invalid JSON"
  const ID_REQUIRED := "id parameter required"

  /** A JSON value, as Python holds it after parsing. */
  datatype Json =
    | JNull
    | JBool(b: bool)
    | JNumber(n: int)
    | JString(s: string)
    | JArray(items: seq<Json>)
    | JObject(members: seq<(string, Json)>)

  /** The JSON bodies the handlers build with `jsonify`. */
  datatype Body =
    | Error(message: string)                                      // {"error": message}
    | PingReport(host: string, reachable: bool, error: Option<string>) // {"host", "reachable"[, "error"]}
    | LoginStatus(status: string)                                 // {"status": status}
    | Received(data: Json)                                        // {"received": data}
    | UserRecord(user: Option<User>)                              // {"user": {id, name} or null}

  datatype Response = Response(status: int, body: Body)

  /** `request.args.get(key, '')` and `request.form.get(key, '')`: a missing field reads as empty. */
  function FieldOrEmpty(field: Option<string>): (v: string)
    ensures field.None? ==> v == ""
    ensures field.Some? ==> v == field.value
  {
    field.GetOr("")
  }

  // ---------------------------------------------------------------------------
  // ping

  /** How `socket.create_connection((host, 80), timeout=3)` ended: connected, or the text of its exception. */
  datatype ProbeOutcome = Connected | ConnectFailed(reason: string)

  /** The checks `ping` makes before any connection: reply at once, or probe `host`. */
  datatype PingStep = Reply(response: Response) | Probe(host: string)

  /** The order of `ping`'s checks: the missing host first, then validation. */
  function PingGate(hostParam: Option<string>, parsesAsIp: IpParser): (step: PingStep)
    ensures FieldOrEmpty(hostParam) == "" ==> step == Reply(Response(400, Error(HOST_REQUIRED)))
    ensures (FieldOrEmpty(hostParam) != "" && !IsValidHostname(FieldOrEmpty(hostParam), parsesAsIp))
      ==> step == Reply(Response(400, Error(INVALID_HOST)))
    ensures step.Probe? <==> FieldOrEmpty(hostParam) != "" && IsValidHostname(FieldOrEmpty(hostParam), parsesAsIp)
    ensures step.Probe? ==> step.host == FieldOrEmpty(hostParam)
  {
    var host := FieldOrEmpty(hostParam);
    if host == "" then Reply(Response(400, Error(HOST_REQUIRED)))
    else if !IsValidHostname(host, parsesAsIp) then Reply(Response(400, Error(INVALID_HOST)))
    else Probe(host)
  }

  /** The reply of the `with socket.create_connection(...)` block: a 200 report, whatever the outcome. */
  function ProbeReport(host: string, outcome: ProbeOutcome): (r: Response)
    ensures r.status == 200 && r.body.PingReport? && r.body.host == host
    ensures r.body.reachable <==> outcome.Connected?
    ensures outcome.ConnectFailed? ==> r.body.error == Some(outcome.reason)
    ensures outcome.Connected? ==> r.body.error == None
  {
    match outcome
    case Connected => Response(200, PingReport(host, true, None))
    case ConnectFailed(reason) => Response(200, PingReport(host, false, Some(reason)))
  }

  /** `ping`: the gate, then the probe of the validated host. */
  function Ping(hostParam: Option<string>, parsesAsIp: IpParser, probe: string -> ProbeOutcome): (r: Response)
    ensures r.status == 200 || r.status == 400
    ensures r.status == 400 <==> PingGate(hostParam, parsesAsIp).Reply?
    ensures FieldOrEmpty(hostParam) == "" ==> r == Response(400, Error(HOST_REQUIRED))
    ensures (FieldOrEmpty(hostParam) != "" && !IsValidHostname(FieldOrEmpty(hostParam), parsesAsIp))
      ==> r == Response(400, Error(INVALID_HOST))
    ensures (FieldOrEmpty(hostParam) != "" && IsValidHostname(FieldOrEmpty(hostParam), parsesAsIp))
      ==> r == ProbeReport(FieldOrEmpty(hostParam), probe(FieldOrEmpty(hostParam)))
  {
    match PingGate(hostParam, parsesAsIp)
    case Reply(response) => response
    case Probe(host) => ProbeReport(host, probe(host))
  }

  /** A missing or empty host is refused before the validator or the probe is consulted. */
  lemma PingEmptyHostConsultsNothing(hostParam: Option<string>, ip1: IpParser, ip2: IpParser,
                                     probe1: string -> ProbeOutcome, probe2: string -> ProbeOutcome)
    requires FieldOrEmpty(hostParam) == ""
    ensures Ping(hostParam, ip1, probe1) == Ping(hostParam, ip2, probe2) == Response(400, Error(HOST_REQUIRED))
  {
  }

  /** A host that fails validation is refused without a probe: the probe's behaviour cannot matter. */
  lemma PingInvalidHostNeverProbes(hostParam: Option<string>, parsesAsIp: IpParser,
                                   probe1: string -> ProbeOutcome, probe2: string -> ProbeOutcome)
    requires !IsValidHostname(FieldOrEmpty(hostParam), parsesAsIp)
    ensures Ping(hostParam, parsesAsIp, probe1) == Ping(hostParam, parsesAsIp, probe2)
    ensures Ping(hostParam, parsesAsIp, probe1).status == 400
    ensures FieldOrEmpty(hostParam) != "" ==> Ping(hostParam, parsesAsIp, probe1) == Response(400, Error(INVALID_HOST))
  {
  }

  /** A valid host always gets a 200 report carrying the probe's verdict, never an error status. */
  lemma PingValidHostReports(host: string, parsesAsIp: IpParser, probe: string -> ProbeOutcome)
    requires host != "" && IsValidHostname(host, parsesAsIp)
    ensures var r := Ping(Some(host), parsesAsIp, probe);
      && r.status == 200
      && r.body == PingReport(host, probe(host).Connected?,
                               if probe(host).Connected? then None else Some(probe(host).reason))
  {
  }

  // ---------------------------------------------------------------------------
  // login

  /** `APP_USERNAME` and `APP_PASSWORD`, read once at start-up. */
  datatype Credentials = Credentials(username: Option<string>, password: Option<string>)

  /** `not USERNAME or not PASSWORD` is false: both are set and neither is empty. */
  predicate Configured(config: Credentials) {
    && config.username.Some? && config.username.value != ""
    && config.password.Some? && config.password.value != ""
  }

  /** `login`: the configuration gate, then both fields compared with `hmac.compare_digest`. */
  function Login(config: Credentials, username: Option<string>, password: Option<string>): (r: Response)
    ensures !Configured(config) ==> r == Response(500, Error(AUTH_NOT_CONFIGURED))
    ensures Configured(config) ==> r.status == 200 || r.status == 401
    ensures Configured(config) ==>
      (r.status == 200 <==> FieldOrEmpty(username) == config.username.value && FieldOrEmpty(password) == config.password.value)
    ensures r.status == 200 ==> r.body == LoginStatus(LOGIN_SUCCESSFUL)
    ensures r.status == 401 ==> r.body == LoginStatus(LOGIN_FAILED)
  {
    if !Configured(config) then Response(500, Error(AUTH_NOT_CONFIGURED))
    else
      var submittedUser := FieldOrEmpty(username);
      var submittedPassword := FieldOrEmpty(password);
      if submittedUser == config.username.value && submittedPassword == config.password.value
      then Response(200, LoginStatus(LOGIN_SUCCESSFUL))
      else Response(401, LoginStatus(LOGIN_FAILED))
  }

  /** Without usable configuration the answer is the same whatever was submitted. */
  lemma LoginUnconfiguredIgnoresSubmission(config: Credentials, u1: Option<string>, p1: Option<string>,
                                           u2: Option<string>, p2: Option<string>)
    requires !Configured(config)
    ensures Login(config, u1, p1) == Login(config, u2, p2)
  {
  }

  /** A configured login never succeeds with a missing field, since the secrets are not empty. */
  lemma LoginMissingFieldFails(config: Credentials, username: Option<string>, password: Option<string>)
    requires Configured(config)
    requires username.None? || password.None?
    ensures Login(config, username, password) == Response(401, LoginStatus(LOGIN_FAILED))
  {
  }

  // ---------------------------------------------------------------------------
  // deserialize_json

  /** What Flask's JSON parser made of the body. */
  datatype ParseOutcome = ParseFailed | Parsed(value: Json)

  /** `request.get_json(silent=True)`: `None` on failure, and also for the JSON value `null`. */
  function GetJsonSilent(outcome: ParseOutcome): (data: Option<Json>)
    ensures data.None? <==> outcome.ParseFailed? || outcome.value == JNull
    ensures data.Some? ==> data.value == outcome.value
  {
    match outcome
    case ParseFailed => None
    case Parsed(v) => if v == JNull then None else Some(v)
  }

  /** `deserialize_json`: 400 when there is no data, else the data echoed under `received`. */
  function DeserializeJson(outcome: ParseOutcome): (r: Response)
    ensures r.status == 200 || r.status == 400
    ensures r.status == 400 <==> outcome.ParseFailed? || outcome.value == JNull
    ensures r.status == 400 ==> r.body == Error(INVALID_JSON)
    ensures r.status == 200 ==> r.body == Received(outcome.value)
  {
    match GetJsonSilent(outcome)
    case None => Response(400, Error(INVALID_JSON))
    case Some(data) => Response(200, Received(data))
  }

  /**
   * Only `null` is lost: the test is `is None`, not falsiness, so `false`, `0`,
   * `""`, `[]` and `{}` come back like any other value.
   */
  lemma FalsyJsonEchoed(v: Json)
    requires v in [JBool(false), JNumber(0), JString(""), JArray([]), JObject([])]
    ensures DeserializeJson(Parsed(v)) == Response(200, Received(v))
  {
  }

  // ---------------------------------------------------------------------------
  // get_user

  /** The reply to a query result: `{user: ...}`, 404 with `user: null` when nothing was found. */
  function UserReply(row: Option<User>): (r: Response)
    ensures r.status == 200 || r.status == 404
    ensures r.status == 404 <==> row.None?
    ensures r.body == UserRecord(row)
  {
    match row
    case None => Response(404, UserRecord(None))
    case Some(_) => Response(200, UserRecord(row))
  }

  /** `get_user`: refuse an empty id without touching the store, else query and reply. */
  method GetUser(db: Database, idParam: Option<string>) returns (r: Response)
    requires db.Valid()
    modifies db
    ensures db.Valid()
    ensures FieldOrEmpty(idParam) == "" ==>
      r == Response(400, Error(ID_REQUIRED)) && db.tableExists == old(db.tableExists) && db.users == old(db.users)
    ensures FieldOrEmpty(idParam) != "" ==>
      && db.tableExists && db.users == Seed(old(db.users))
      && r == UserReply(Select(db.users, FieldOrEmpty(idParam)))
    ensures FieldOrEmpty(idParam) in {"1", "2"} ==> r.status == 200
  {
    var id := FieldOrEmpty(idParam);
    if id == "" {
      r := Response(400, Error(ID_REQUIRED));
    } else {
      var row := db.RunQuery(id);
      r := UserReply(row);
    }
  }

  /** `GET /user?id=1` on a fresh database answers Alice; an unknown id answers 404. */
  method FreshDatabaseQueries() returns (alice: Response, missing: Response)
    ensures alice == Response(200, UserRecord(Some(User("1", "Alice"))))
    ensures missing == Response(404, UserRecord(None))
  {
    var db := new Database();
    alice := GetUser(db, Some("1"));
    missing := GetUser(db, Some("999"));
  }
}
