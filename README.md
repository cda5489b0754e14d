# Leaderboard submission gate, modelled in Dafny

This project models the anti-abuse gate of an arcade leaderboard backend. It covers three parts:
- the token endpoint, which issues a self-verifying token `ts.exp.tag`;
- the stateless token verifier;
- the submission endpoint, which puts a score through a fixed chain of checks and writes at most one row.

All three are pure functions of their inputs in the model. The clock, the secret, HMAC-SHA-256,
SHA-256, the environment settings and the storage query's answer are parameters.

Modules, leaves first:

- `JsStrings` (`js_strings.dfy`): the JavaScript string operations the handlers use. These are:
  - `split` on one character, with `join` and the round trip between them;
  - `parseInt(_, 10)`;
  - `trim`;
  - decimal rendering of integers (template-literal interpolation);
  - the ASCII case-insensitive search behind `/word/i`.
- `JsValues` (`js_values.dfy`): the values a JSON body holds, with truthiness, `||`, `String()`,
  `Number.isFinite` and comparisons with NaN.
- `Http` (`http.dfy`): a response is a status code and a JSON body. Headers are not modelled.
- `ApiLib` (`api_lib.dfy`): `nowSec`, `verifyIssuedToken` and the result of `countRecentByIp`.
- `TokenApi` (`api_token.dfy`): the token endpoint and its round trip with the verifier.
- `SubmitApi` (`api_submit.dfy`):
  - the submission endpoint;
  - its nine checks, each as a named predicate;
  - the short-circuit chain over their verdicts;
  - the first-failure order;
  - the meaning of each check and end-to-end scenarios.

The handler's outcome is `Respond(response)` or `InsertThenOk(row)`. `InsertThenOk(row)` means
`insertScore(row)` is called and then `{ ok: true }` is answered.

## Where the code and the intended design differ

The model follows the code in each of these cases:

- **Rate check before the ceiling.** The rate limit (`api/submit.js:30-32`) is checked before the
  2,000,000,000 score ceiling (`api/submit.js:34`). An over-ceiling score from a rate-limited client
  gets 429, not 400 (`SubmitApi.EleventhSubmissionRateLimited`).
- **Extra `sig` fields are accepted.** `sig` is not required to have exactly one `|`. Fields after
  the second are ignored (`SubmitApi.SigExtraFieldsIgnored`).
- **No storage-error response.** A failing insert is not caught: `insertScore` throws and the
  handler has no `catch`. The code has no 500 response, so the model has no storage-error outcome.
- **Zero `ts` is refused.** `ts` is only tested for truthiness. A `ts` of `0` is refused as
  "Missing token", and any other truthy value is never looked at
  (`SubmitApi.TsOnlyTestedForTruthiness`).
- **Pre-epoch tokens never verify.** A token issued with the clock before the epoch renders `ts`
  with a minus sign (`TokenApi.PreEpochTokenNeverVerifies`). The round trip therefore needs
  `issuedAt >= 0`.
- **The limiter fails open only on a non-ok reply.** `countRecentByIp` answers 0 when the storage
  query returns a non-ok status (`api/_lib.js:75`). Every other read failure throws instead: a
  rejected `fetch`, an unset `SUPABASE_URL` (so `new URL` throws), or a body `res.json()` cannot
  parse. The handler then throws at `api/submit.js:30` and sends no response, so the submission is
  not admitted. The model's storage reply has only the two cases `NotOk` and `Rows`.
- **A non-numeric `RATE_PER_MIN` switches the limiter off.** It parses to NaN, and `recent >= NaN`
  is false for every count (`SubmitApi.NonNumericLimitNeverLimits`).

## Model

| member | source | states |
|---|---|---|
| ApiLib.NowSec | api/_lib.js:19 | the result is the millisecond reading divided by 1000, rounded down: `t*1000 <= ms < t*1000 + 1000` |
| ApiLib.VerifyIssuedToken | api/_lib.js:21-33 | with the secret set, a boolean for every JSON value. `true` only for a non-empty string that splits on `.` into exactly three parts, with digit-only `ts` and `exp`, a third part equal to `hmac(secret, ts.exp)`, and `now <= exp` |
| ApiLib.VerifyCharacterisation | api/_lib.js:21-33 | both directions: the strings that verify at `now` are exactly `ts.exp.hmac(secret, ts.exp)`, with digit strings `ts` and `exp`, a tag without `.` (as every lower-case hex tag is) and `now <= exp` |
| ApiLib.VerifyOfWellFormed | api/_lib.js:27-32 | for digit fields and a dot-free third field, the verdict is exactly "MAC matches and `now <= exp`" |
| ApiLib.AlteredSignatureRejected | api/_lib.js:28-29 | a token of the issued shape with any other dot-free tag fails at every clock reading |
| ApiLib.ExpiryInclusive | api/_lib.js:30-31 | a correctly signed token whose tag has no `.` is accepted at `now == exp` and rejected at `exp + 1` |
| ApiLib.IssuedAtIgnored | api/_lib.js:21-33 | `ts` is never compared with `now`: a correctly signed token whose tag has no `.` verifies for every `now <= exp`, whatever its `ts` |
| ApiLib.ToInt32 | api/_lib.js:75 | `x` OR 0 (bitwise) lies in the signed 32-bit range, is congruent to `x` modulo 2^32, and equals `x` inside that range |
| ApiLib.CountRecentByIp | api/_lib.js:75 | 0 when the count query answers with a non-ok status (fail open on that reply only); the row count when there are fewer than 2^31 rows; negative only from 2^31 rows on |
| TokenApi.Issue | api/token.js:7-11 | the issued expiry is `now + 900`, so it lies after the issue time |
| TokenApi.Handler | api/token.js:5-11 | OPTIONS gives 200 with an empty object; any other method but GET gives 405 "Method not allowed"; a token body is returned exactly for GET, with 200 and the issued token and expiry |
| TokenApi.IssuedTokenFields | api/token.js:7-11 | an issued token splits into three parts: `ts` reads back as the issue time, `exp` reads back as the reported `expiresAt`, and the third part is the tag of `ts.exp` |
| TokenApi.IssueThenVerify | api/token.js:7-11 | round trip: a token issued at `T >= 0` verifies at exactly the readings `now <= T + 900`, so on all of `[T, T+900]` and at none after |
| TokenApi.PreEpochTokenNeverVerifies | api/token.js:7-9 | a token issued at a negative time never verifies |
| JsStrings.Split | api/submit.js:23 | `split` yields at least one part; the parts join back to the input and none contains the separator |
| JsStrings.SplitJoin | api/_lib.js:24 | splitting inverts joining when no part contains the separator |
| JsStrings.SplitThree | api/_lib.js:24-26 | three separator-free fields joined by `.` split back into exactly those three fields |
| JsStrings.IntToDecimal | api/token.js:9 | the rendering of an integer is non-empty; it is digit-only exactly for non-negative integers, and then its decimal value is the integer |
| JsStrings.ParseIntOfDigits | api/_lib.js:31 | `parseInt` of a digit-only string is its decimal value, never NaN |
| JsStrings.ParseIntOfDecimal | api/submit.js:26 | `parseInt` inverts the decimal rendering of every integer, negative ones included |
| JsStrings.LeadingDigits | api/submit.js:26 | the digit run `parseInt` reads is the longest all-digit prefix |
| JsStrings.TrimIsInnerSlice | api/submit.js:11 | `trim` returns a contiguous piece of its input with no white space at either end, and everything it drops on either side is white space |
| JsStrings.ContainsIgnoringCase | api/submit.js:4 | `/w/i.test(s)` holds iff `w` occurs somewhere in `s` ignoring ASCII case |
| SubmitApi.HasProfanity | api/submit.js:19 | true iff one of the three bad words occurs in the name, in any ASCII case |
| SubmitApi.ClientIp | api/submit.js:11 | the client address is the header's text up to its first `,` (all of it without one), with only white space removed at either end; empty without the header |
| SubmitApi.FirstFieldTrimmed | api/submit.js:11 | the first `,`-separated field of a header, trimmed, is a slice of the header that ends before its first `,` and loses only white space on either side |
| SubmitApi.Handle | api/submit.js:8-15 | OPTIONS gives 200 with an empty object; methods other than POST give 405; a POST whose body is not JSON gives 400 "Invalid JSON"; a row is inserted only for a POST with a parsed body; such a POST gets the validation chain under the address hash `sha256(ip:pepper)`, with `pepper` defaulting to "pepper" |
| SubmitApi.FirstFailureIsFirst | api/submit.js:17-34 | the reference first-failure search finds nothing iff every check passes; otherwise it names a failing check that every earlier check passes |
| SubmitApi.ChainIsFirstFailure | api/submit.js:17-37 | the handler's guard chain equals the first-failure search over the fixed check order: it answers with that check's status and message, and inserts when none fails |
| SubmitApi.RejectionIsFirstFailure | api/submit.js:17-34 | both directions: the chain rejects with the `i`-th reason iff that check fails and every earlier one passes, so several failures report the earliest |
| SubmitApi.InsertIffAllPass | api/submit.js:17-37 | a row is written iff all nine checks pass. The one row written carries the name, the finite score, the fingerprint or null, and the address hash |
| SubmitApi.ScoreBounds | api/submit.js:17-34 | the first and last checks together admit exactly the finite numbers with `0 <= score <= 2,000,000,000` |
| SubmitApi.NameChecks | api/submit.js:18-19 | both directions: a string name passes both name checks iff it has 1 to 16 characters from `[A-Za-z0-9_\- ]` and no bad word occurs in it in any case |
| SubmitApi.MissingUsernameRejected | api/submit.js:18 | a missing or falsy username is tested as `''` and fails |
| SubmitApi.TsOnlyTestedForTruthiness | api/submit.js:20 | replacing `ts` by any value of the same truthiness leaves the outcome unchanged |
| SubmitApi.SigExtraFieldsIgnored | api/submit.js:23-24 | a `sig` of three or more bar-separated fields with non-empty first two fields is well formed; its token and client time are the first two fields, and the rest is ignored |
| SubmitApi.SigWithoutBarMalformed | api/submit.js:23-24 | a `sig` without a bar has no client-time field and is malformed |
| SubmitApi.ClockSkewWindow | api/submit.js:26-27 | a decimal client time `c` passes iff `now - 900 <= c <= now + 900`, ends inclusive |
| SubmitApi.DefaultRateLimit | api/submit.js:30-32 | with `RATE_PER_MIN` unset or empty, a client passes iff it has fewer than 10 recent rows |
| SubmitApi.RateLimitFailsOpen | api/submit.js:30-32 | when the count query answers with a non-ok status, every positive (or NaN) limit admits the client |
| SubmitApi.NonNumericLimitNeverLimits | api/submit.js:31-32 | a non-empty `RATE_PER_MIN` whose first character after leading white space is neither a digit nor a sign (or that is all white space) parses to NaN and never limits |
| SubmitApi.FreshSubmissionAccepted | api/submit.js:17-37 | a clean entry with a `sig` of an unexpired issued token and a client time within 900 s, under the limit and at most the ceiling, inserts its row |
| SubmitApi.AceScenarioAccepted | api/submit.js:17-37 | "Ace_01" scoring 500 with a fresh token and the server's own time, with fewer than 10 recent rows and the default limit, is written |
| SubmitApi.ForgedTokenRejected | api/submit.js:25 | an issued token with its tag replaced by any other string without `.` or `|` is refused with 401 "Invalid token" |
| SubmitApi.SkewedClockRejected | api/submit.js:26-27 | a valid token with a client time more than 900 s off is refused with 401 "Clock skew" |
| SubmitApi.EleventhSubmissionRateLimited | api/submit.js:30-34 | with the default limit and 10 recent rows, a valid submission is refused with 429, whatever its score |
| SubmitApi.HugeScoreRejected | api/submit.js:34 | a score above 2,000,000,000 with a valid token under the limit is refused with 400 "Score too large" |

## Left out

- HTTP headers, CORS and the `ok`/`bad`/`cors` helpers (`api/_lib.js:3-16`) are left out. A response
  is a status code and a JSON body.
- The network I/O of `insertScore`, `queryTop` and `countRecentByIp` (`api/_lib.js:35-76`) is left out.
  - The insert is the returned row.
  - The count query's answer is an input: not ok, or ok with a number of rows. That number is the
    rows for this client's hash in the last 60 seconds. A different client's hash has its own
    answer.
- The count query's throwing paths are left out (`api/_lib.js:69-75`). A rejected `fetch`, an
  unset `SUPABASE_URL` or an unparsable reply body makes `countRecentByIp` throw, and the handler
  throws with it at `api/submit.js:30`. `StorageReply` stands only for a reply that arrived and,
  when ok, parsed.
- An unset `HMAC_SECRET` is left out. `crypto.createHmac("sha256", undefined)` throws
  (`api/_lib.js:18`), so the source's `verifyIssuedToken` and the token endpoint then throw.
  `Config.hmacSecret` stands for a secret that is set.
- A JSON object whose own `toString` is not a function is left out. Given as `username` or `sig`,
  `reName.test` (`api/submit.js:18`) or `String(sig)` (`api/submit.js:23`) throws a TypeError for
  it. `Composite(text)` stands only for the arrays and objects `String()` converts, to `text`.
- Insert failures are left out. The code throws out of the handler and has no error response of its
  own.
- HMAC-SHA-256 and SHA-256 (`api/_lib.js:17-18`) are function parameters.
  - The round-trip lemmas assume only that a tag is lower-case hex.
  - Forgery resistance of the MAC is not modelled. The lemmas state which tags verify, not who can
    compute them.
- `Date.now` is left out: `now` is a parameter, in seconds. `NowSec` models the rounding down from
  milliseconds.
  - One `now` stands for both clock reads in the submission handler: the one in `verifyIssuedToken`
    and the one in the skew check. A second boundary between the two reads is not modelled.
- JSON body parsing (`api/submit.js:14`) is left out. The body is `None` when it is not JSON, or a
  `Submission` of five JSON values, each `Undefined` when absent.
- `process.env` reads are a `Config` parameter. An empty setting counts as unset, as with `||`.
- `Number.prototype.toString` is a parameter. It is how `String()` renders a number given as
  username or `sig`.
- Floating point is left out. Finite numbers are exact reals, and `parseInt` yields exact integers.
  - The precision loss of digit strings longer than 15 digits is not modelled.
  - The overflow of very long ones to `Infinity` is not modelled either.
  - Neither changes an outcome for clock readings near the present.
- `ApiLib.CountRecentByIp`: `arr.length|0` is modelled exactly. It is negative for 2^31 rows or more,
  so "never negative" is stated for fewer than 2^31 rows.
- `ApiLib.AlteredSignatureRejected`: stated for replacement tags without `.`. A replacement
  containing `.` changes the field count, and that is covered by the three-part rule of
  `ApiLib.VerifyIssuedToken`.
- `SubmitApi.Checks` evaluates all nine checks at once, not lazily. Every check is a total pure
  function, so the outcome is the same.
  - The lazy order decides only whether the count query is sent, which is I/O outside the model.
- `api/leaderboard.js` is left out. It is a pass-through to a remote query.
- The non-atomic read-then-insert race between concurrent submissions is left out. The model is
  sequential.
