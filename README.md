# A verified model of the request-handling core of a small Flask service

The service in `import_os.py` answers six routes. This project models the
parts that make decisions, and proves what those decisions are:

- **The host validator** `_is_valid_hostname` (module `Hostname`, file
  `hostname.dfy`). A string is valid in two cases: `ipaddress.ip_address`
  accepts it, or it is at most 253 characters long and every label passes
  `re.match(r"^(?!-)[A-Za-z0-9-]{1,63}(?<!-)$", label)`. The labels are the
  pieces of `name.split('.')` once one trailing `.` is dropped.
  - Python's `split` and `join` are modelled, with both round trips proved.
  - The regular expression is modelled the way the matcher runs it: the
    lookahead, the greedy quantifier capped at 63, backtracking over end
    positions, the lookbehind and Python's `$`. It is proved equal to a plain
    label rule (`LabelPatternCharacterised`).
  - Python's `$` also matches just before a final newline, and the labels
    are matched one by one. So a label may carry one trailing `"\n"`: `"abc\n"`
    and `"a\n.b"` are valid hosts, and such a label may be 64 characters long.
    The model keeps this behaviour (`NewlineLabelAccepted`,
    `InnerNewlineLabelAccepted`).
  - The `ipaddress` library is a parameter `parsesAsIp: string -> bool`.
    What is known of it is stated as `ConsistentIpParser`: whatever it accepts
    is a digit quad (four `.`-separated pieces of 1 to 3 ASCII digits,
    `IsDigitQuad`) or contains `:`. This holds for every release of the
    library. The dotted quad of Python 3.9.5 and later, which refuses leading
    zeros, is modelled as `IsIPv4Literal`. Every digit quad passes the hostname
    rules on its own (`DigitQuadPassesHostnameRules`). As a result, a name without `:` gets
    the same verdict whatever the parser says (`ColonFreeNameDecidedByRules`).
    A name with `:` is valid only if the parser accepts it
    (`ColonNameDecidedByParser`).
- **The handlers** `ping`, `login`, `deserialize_json` and `get_user` (module
  `Handlers`, file `handlers.dfy`). Each takes its abstracted request inputs
  and returns a status code and a JSON body.
  - The outcome of the TCP probe is a parameter `probe: string -> ProbeOutcome`.
  - `APP_USERNAME` and `APP_PASSWORD` come in as an immutable `Credentials`
    value.
  - Flask's JSON parsing is an input `ParseFailed | Parsed(v)`.
  - A missing query or form field reads as `""`, as `.get(key, '')` gives it.
- **The user store** `run_query` (module `UserStore`, file `user_store.dfy`).
  The database file is a `Database` object with two fields: whether the
  `users` table exists, and its rows as a `map<string, string>`. `RunQuery`
  runs the same statements as the source, in the same order:
  `CREATE TABLE IF NOT EXISTS`, two `INSERT OR IGNORE` seeds, then the
  `SELECT` by primary key. Its contract ties the new table to the pure
  function `Seed` and the result to `Select`. The lemmas about `Seed` say it
  is idempotent, never overwrites a row and touches no other key.

Two properties of the validator are easy to misstate; the model follows the
code:

- The 253-character limit is measured on the name as given, before the
  trailing dot is dropped, not after it. A 253-character name made of valid
  labels is accepted, but the same name with a trailing `.` is rejected
  (`TrailingDotCountsTowardsLimit`).
- "A label longer than 63 characters is rejected" holds only for labels that
  do not end in a newline. A label of 63 characters followed by `"\n"` passes
  (`LongLabelRejected` states the exact bound).

## Model

| member | source | states |
|---|---|---|
| `Hostname.IsValidHostname` | import_os.py:18-34 | anything the IP parser accepts is valid whatever its length or shape; a name the parser rejects is valid exactly when it has at most 253 characters and each of its labels (after one trailing `.` is dropped) has 1 to 63 characters from `[A-Za-z0-9-]`, neither first nor last a hyphen, and at most one final newline |
| `Hostname.HostnameRulesCharacterised` | import_os.py:29-34 | the non-IP branch accepts exactly the names of at most 253 characters whose every label obeys the label rule |
| `Hostname.Split` | import_os.py:34 | `str.split` yields at least one piece and no piece contains the separator |
| `Hostname.JoinSplit` | import_os.py:34 | joining the pieces of a split with the separator gives the original string back |
| `Hostname.SplitJoin` | import_os.py:34 | splitting a join of separator-free pieces gives exactly those pieces |
| `Hostname.GreedyRun` | import_os.py:33 | the greedy `[A-Za-z0-9-]{1,63}` runs over class characters only, at most 63 of them, and stops only at the cap, the end or a character outside the class |
| `Hostname.LabelPatternCharacterised` | import_os.py:33-34 | `re.match` of the label pattern succeeds exactly when the label has 1 to 63 class characters, does not start or end with `-`, and has at most one final newline after them |
| `Hostname.StripTrailingDot` | import_os.py:31-32 | one `.` is dropped exactly when the name ends in `.`; otherwise the name is unchanged |
| `Hostname.Labels` | import_os.py:31-34 | the labels checked are at least one, free of `.`, and joined by `.` give back the name minus its trailing dot |
| `Hostname.Backtrack` | import_os.py:33 | backtracking from end position `k` succeeds exactly when some end position from 1 to `k` is preceded by a non-hyphen (the lookbehind) and satisfies `$` |
| `Hostname.LabelPatternMatches` | import_os.py:33-34 | `re.match` of the label pattern: no leading hyphen (the lookahead), then the greedy run of class characters with backtracking; its meaning is stated by `LabelPatternCharacterised` |
| `Hostname.PassesHostnameRules` | import_os.py:29-34 | the non-IP branch: the name has at most 253 characters and the pattern matches every label; characterised by `HostnameRulesCharacterised`, `AcceptedNameIsJoinOfLabels` and `JoinOfLabelsAccepted` |
| `Hostname.AcceptedNameIsJoinOfLabels` | import_os.py:29-34 | a name that passes the rules has at most 253 characters and is a non-empty `.`-join of valid labels, optionally followed by one `.` |
| `Hostname.JoinOfLabelsAccepted` | import_os.py:29-34 | a non-empty `.`-join of valid labels, with or without one trailing `.`, passes the rules whenever it has at most 253 characters |
| `Hostname.TrailingDotCountsTowardsLimit` | import_os.py:29-32 | the trailing dot counts towards the limit: a 253-character join of labels passes, the same join with a trailing `.` does not |
| `Hostname.EmptyLabelRejected` | import_os.py:31-34 | a name with an empty label (after one trailing dot is dropped) fails the rules |
| `Hostname.LongLabelRejected` | import_os.py:33-34 | a label longer than 64 characters, or of 64 characters not ending in a newline, makes the name fail |
| `Hostname.HyphenEdgeRejected` | import_os.py:33-34 | a label starting with `-`, or ending with `-` before an optional final newline, makes the name fail |
| `Hostname.PassingNameCharacters` | import_os.py:33-34 | a name that passes the rules contains only `[A-Za-z0-9-]`, `.` and newlines |
| `Hostname.ForeignCharRejected` | import_os.py:33-34 | a name holding any other character (a space, `_`, `:`, ...) fails the rules |
| `Hostname.NewlineLabelAccepted` | import_os.py:33-34 | `"abc\n"` passes the rules, because `$` matches before a final newline |
| `Hostname.InnerNewlineLabelAccepted` | import_os.py:33-34 | `"a\n.b"` passes the rules: the newline may end any label, not only the last one |
| `Hostname.EmptyNameExamples` | import_os.py:29-34 | `""` and `"."` fail the rules |
| `Hostname.DoubleDotExample` | import_os.py:31-34 | `"a..b"` fails the rules |
| `Hostname.TwoTrailingDotsExample` | import_os.py:31-34 | `"a.b.."` fails the rules: only one trailing dot is dropped |
| `Hostname.HyphenExample` | import_os.py:33-34 | `"-bad.com"` fails the rules |
| `Hostname.LongLabelExample` | import_os.py:33-34 | `"a" * 64 + ".com"` fails the rules |
| `Hostname.SpacesExample` | import_os.py:33-34 | `"not a valid host!!"` fails the rules |
| `Hostname.ExampleComAccepted` | import_os.py:18-34 | `"example.com"` is valid whatever the IP parser says |
| `Hostname.TrailingDotExample` | import_os.py:18-34 | `"a.b."` is valid whatever the IP parser says |
| `Hostname.IsIPv4Literal` | import_os.py:23 | the IPv4 dotted quad `ipaddress` accepts from Python 3.9.5 on: four `.`-separated octets of 1 to 3 digits, no leading zero, value at most 255 |
| `Hostname.IsDigitQuad` | import_os.py:23 | four `.`-separated pieces of 1 to 3 ASCII digits, the least any release of `ipaddress` demands of an IPv4 string |
| `Hostname.ConsistentIpParser` | import_os.py:23 | the assumption about `ipaddress.ip_address`: whatever it accepts is a digit quad or contains `:` |
| `Hostname.DigitQuadPassesHostnameRules` | import_os.py:20-34 | every digit quad, leading zeros and values above 255 included, also passes the hostname rules |
| `Hostname.DigitPiecesMakeDigitQuad` | import_os.py:23 | four pieces of 1 to 3 digits joined by `.` form a digit quad, and one with a leading zero makes the join no dotted quad |
| `Hostname.LeadingZeroQuadExample` | import_os.py:23 | `"01.2.3.4"`, which releases before Python 3.9.5 accept, is a digit quad but not a dotted quad |
| `Hostname.OctetsMakeIPv4Literal` | import_os.py:23 | four octets (1 to 3 digits, no leading zero, at most 255) joined by `.` form a dotted quad |
| `Hostname.LoopbackIsIPv4` | import_os.py:23 | `"127.0.0.1"` is a dotted quad |
| `Hostname.IPv4LiteralPassesHostnameRules` | import_os.py:20-34 | every dotted quad also passes the hostname rules |
| `Hostname.IPv4LiteralIsValid` | import_os.py:20-34 | a dotted quad is valid whatever the IP parser says |
| `Hostname.LoopbackExample` | import_os.py:20-34 | `"127.0.0.1"` is valid whatever the IP parser says |
| `Hostname.ColonFreeNameDecidedByRules` | import_os.py:20-34 | for a parser that behaves like any release of `ipaddress`, a name without `:` is valid exactly when it passes the hostname rules |
| `Hostname.ColonNameDecidedByParser` | import_os.py:20-34 | a name containing `:` is valid exactly when the IP parser accepts it |
| `Handlers.FieldOrEmpty` | import_os.py:41 | a missing field reads as `""`; a present one reads as its value |
| `Handlers.PingGate` | import_os.py:41-45 | an empty host gives 400 "host parameter required"; a non-empty host that fails validation gives 400 "invalid host"; otherwise the validated host is probed |
| `Handlers.ProbeReport` | import_os.py:47-51 | the probe's report is always status 200 for the host; `reachable` is true exactly when the connection succeeded, and a failure carries its reason |
| `Handlers.Ping` | import_os.py:41-51 | `ping` answers only 200 or 400, and 400 exactly when the gate refuses the host; an empty host gives 400 "host parameter required", a non-empty host that fails validation gives 400 "invalid host", and a valid host gets the probe's report for that host |
| `Handlers.PingEmptyHostConsultsNothing` | import_os.py:41-43 | with an empty host the answer is 400 "host parameter required", whatever the validator and the probe would do |
| `Handlers.PingInvalidHostNeverProbes` | import_os.py:44-48 | for a host that fails validation the answer is 400 and does not depend on the probe; when the host is non-empty the body is "invalid host" |
| `Handlers.PingValidHostReports` | import_os.py:47-51 | a valid host always gets a 200 report carrying the probe's verdict and, on failure, its reason |
| `Handlers.Login` | import_os.py:61-67 | unset or empty secrets give 500 "authentication not configured"; otherwise 200 "login successful" exactly when both submitted fields equal the secrets, and 401 "login failed" in every other case |
| `Handlers.LoginUnconfiguredIgnoresSubmission` | import_os.py:61-62 | without usable secrets the answer does not depend on what was submitted |
| `Handlers.LoginMissingFieldFails` | import_os.py:61-67 | with secrets configured, a missing username or password always gives 401 |
| `Handlers.GetJsonSilent` | import_os.py:72 | no data when parsing failed or the body is JSON `null`; otherwise exactly the parsed value |
| `Handlers.DeserializeJson` | import_os.py:72-75 | 400 "invalid JSON" exactly when parsing failed or gave `null`; otherwise 200 with the parsed value unchanged under `received` |
| `Handlers.FalsyJsonEchoed` | import_os.py:73-75 | `false`, `0`, `""`, `[]` and `{}` are echoed back, because the test is `is None` and not falsiness |
| `Handlers.UserReply` | import_os.py:95-97 | the row found is returned under `user` with 200; no row gives 404 with `user: null` |
| `Handlers.GetUser` | import_os.py:91-97 | an empty id gives 400 and leaves the store unchanged; otherwise the table is seeded and the answer is the seeded table's row for that id; ids `"1"` and `"2"` are always found |
| `Handlers.FreshDatabaseQueries` | import_os.py:89-114 | on a database without the table, id `"1"` answers `{id: "1", name: "Alice"}` and id `"999"` answers 404 |
| `UserStore.InsertOrIgnore` | import_os.py:106-107 | `INSERT OR IGNORE` adds the key only when absent and never changes an existing row |
| `UserStore.Seed` | import_os.py:106-107 | seeding adds exactly the keys `"1"` and `"2"`, keeps every existing row, and writes "Alice" and "Bob" only where those keys were absent |
| `UserStore.Select` | import_os.py:108-114 | the query by primary key finds a row exactly when the key is in the table, and returns that key with its name |
| `UserStore.SeededTableIsFixed` | import_os.py:105-107 | a table that already holds both seed keys is left as it is by seeding |
| `UserStore.SeedIdempotent` | import_os.py:105-107 | seeding twice is the same as seeding once |
| `UserStore.SeedTouchesOnlySeedKeys` | import_os.py:106-107 | seeding does not change the lookup of any key other than `"1"` and `"2"` |
| `UserStore.SeedIdsFound` | import_os.py:106-114 | after seeding, `"1"` and `"2"` are always found, with their old names when they were present |
| `UserStore.Database.constructor` | import_os.py:101-102 | a new database file has no `users` table and no rows |
| `UserStore.Database.Existing` | import_os.py:101-102 | a database file whose table already holds the given rows |
| `UserStore.Database.CreateTableIfNotExists` | import_os.py:105 | afterwards the table exists and its rows are unchanged |
| `UserStore.Database.InsertOrIgnoreRow` | import_os.py:106-107 | the new rows are `InsertOrIgnore` of the old ones |
| `UserStore.Database.SelectById` | import_os.py:108-109 | the row with that primary key and its name, or none when the key is absent |
| `UserStore.Database.RunQuery` | import_os.py:100-114 | afterwards the table exists and holds the seeded old rows; the result is the seeded table's row for the id; a table already holding both seeds is unchanged |
| `UserStore.RepeatedQueries` | import_os.py:100-114 | two queries in a row leave the table seeded once, and the second sees the table the first left |

## Left out

- Flask machinery is not modelled: routing, `home` and `render_template`, `jsonify` and `make_response` serialisation, and `app.run`. These are framework calls with no logic of their own.
- `requests_example` (import_os.py:79-86) is not modelled. It is outbound network I/O through `requests.get` and `raise_for_status`.
- The TCP probe `socket.create_connection((host, 80), timeout=3)` is not modelled: the timeout, port 80, the socket's closing and the exception text. Its outcome is the parameter `probe`.
- `ipaddress.ip_address` is not part of this model, and IPv6 parsing in particular is not modelled. The library is the parameter `parsesAsIp`. Of its behaviour, the model states only the IPv4 dotted quad (`IsIPv4Literal`, the octet rules of Python 3.9.5 and later) and the assumption `ConsistentIpParser`, which is stated over the weaker `IsDigitQuad` so that it also holds for older releases, whose leading-zero octets `IsIPv4Literal` does not describe.
- Flask's JSON parser behind `get_json(silent=True)`, content-type checks included, is not modelled. Its verdict is the input `ParseOutcome`. JSON numbers are integers only; floating point is left out.
- The constant-time behaviour of `hmac.compare_digest` is not modelled, because timing cannot be expressed. The comparison is plain string equality. The `TypeError` the library raises on non-ASCII `str` input is left out as well.
- The environment reads of `APP_USERNAME` and `APP_PASSWORD` are not modelled; the two values arrive as the `Credentials` parameter.
- SQLite specifics are not modelled: the file path, connection, `row_factory`, commit, close, and locking between concurrent requests. The `users` table is a map from `id` to `name`. `NULL` names, which the service never writes, are not modelled.
- Multi-valued query parameters are not modelled; `request.args.get` is taken to give one optional value.
- String lengths are counted in Unicode scalar values (Dafny's `char`), as Python's `len` counts code points. Lone surrogates, which Python strings can hold, are not modelled.
