/** The submission endpoint (api/submit.js): a POST of `{ username, score, ts, sig, fingerprint }`
    passes a fixed chain of checks, each with its own status and message, and only a submission
    that passes all of them is written, as exactly one row. */
module SubmitApi {
  import opened JsStrings
  import opened JsValues
  import opened Http
  import opened ApiLib
  import opened TokenApi

  const MaxNameLength: int := 16
  /** Largest accepted distance, in seconds, between the client's claimed time and the server's. */
  const ClockSkewLimit: int := 15 * 60
  /** `score > 2_000_000_000` is refused. */
  const ScoreCeiling: real := 2000000000.0
  /** `process.env.RATE_PER_MIN || '10'`. */
  const DefaultRatePerMin: string := "10"
  /** `process.env.HS_PEPPER || 'pepper'`. */
  const DefaultPepper: string := "pepper"
  /** `badWords`, each tested case-insensitively. */
  const BadWords: seq<string> := ["fuck", "shit", "bitch"]

  // ---------------------------------------------------------------- name rules

  /** The character class `[A-Za-z0-9_\- ]` of `reName`. */
  predicate IsNameChar(c: char)
  {
    ('A' <= c <= 'Z') || ('a' <= c <= 'z') || ('0' <= c <= '9') || c == '_' || c == '-' || c == ' '
  }

  /** `reName.test(s)` for `reName = /^[A-Za-z0-9_\- ]{1,16}$/`. */
  predicate MatchesNamePattern(s: string)
  {
    1 <= |s| <= MaxNameLength && forall i :: 0 <= i < |s| ==> IsNameChar(s[i])
  }

  /** `badWords.some(rx => rx.test(s))`. */
  function HasProfanity(s: string): (found: bool)
    ensures found <==> exists k :: 0 <= k < |BadWords| && ContainsIgnoringCase(s, BadWords[k])
  {
    ContainsIgnoringCase(s, BadWords[0]) || ContainsIgnoringCase(s, BadWords[1]) || ContainsIgnoringCase(s, BadWords[2])
  }

  // ---------------------------------------------------------------- requests and configuration

  /** The destructured JSON body; a property the body lacks is `Undefined`. */
  datatype Submission = Submission(username: JsValue, score: JsValue, ts: JsValue, sig: JsValue, fingerprint: JsValue)

  /** A request: its method, its `x-forwarded-for` header, and its body (`None` when it is not JSON;
      a JSON `null` or a non-object body reads as a submission with every property `Undefined`). */
  datatype Request = Request(verb: string, forwardedFor: Option<string>, body: Option<Submission>)

  /** The process environment the handler reads. */
  datatype Config = Config(hmacSecret: string, pepper: Option<string>, ratePerMin: Option<string>)

  /** The primitives and ambient state the handler uses: the clock reading `now` (in seconds),
      HMAC-SHA-256 and SHA-256 as hex digests, and the rendering of numbers by `String()`. */
  datatype Platform = Platform(now: int, hmac: Hmac, sha256: string -> string, numberText: NumberText)

  /** Everything a check can look at besides the submission: configuration, platform, the client's
      address hash and what the storage query of `countRecentByIp` answers. */
  datatype Context = Context(config: Config, platform: Platform, ipHash: string, storage: StorageReply)

  /** The row given to `insertScore`. */
  datatype ScoreRow = ScoreRow(username: JsValue, score: real, fingerprint: JsValue, ipHash: string)

  /** The reasons for refusing a submission, in the order the handler checks them. */
  datatype Rejection =
    | InvalidScore | InvalidUsername | Profanity | MissingToken | MalformedSig
    | InvalidToken | ClockSkew | RateLimited | ScoreTooLarge

  const CheckOrder: seq<Rejection> :=
    [InvalidScore, InvalidUsername, Profanity, MissingToken, MalformedSig,
     InvalidToken, ClockSkew, RateLimited, ScoreTooLarge]

  function Status(r: Rejection): int
  {
    match r
    case InvalidScore => 400
    case InvalidUsername => 400
    case Profanity => 400
    case MissingToken => 400
    case MalformedSig => 401
    case InvalidToken => 401
    case ClockSkew => 401
    case RateLimited => 429
    case ScoreTooLarge => 400
  }

  function Message(r: Rejection): string
  {
    match r
    case InvalidScore => "Invalid score"
    case InvalidUsername => "Invalid username"
    case Profanity => "Profanity not allowed"
    case MissingToken => "Missing token"
    case MalformedSig => "Malformed sig"
    case InvalidToken => "Invalid token"
    case ClockSkew => "Clock skew"
    case RateLimited => "Rate limited"
    case ScoreTooLarge => "Score too large"
  }

  /** What the handler does: answer at once, or call `insertScore(row)` and then answer `{ ok: true }`. */
  datatype Outcome = Respond(response: Response) | InsertThenOk(row: ScoreRow)

  function Reject(r: Rejection): Outcome
  {
    Respond(Bad(Status(r), Message(r)))
  }

  // ---------------------------------------------------------------- the checks

  /** `env || fallback` for an environment variable. */
  function EnvOr(v: Option<string>, fallback: string): string
  {
    if v.Some? && v.value != "" then v.value else fallback
  }

  /** `String(sig).split("|")`. */
  function SigFields(s: Submission, numberText: NumberText): (fields: seq<string>)
    ensures |fields| > 0
  {
    Split(ToStr(s.sig, numberText), '|')
  }

  /** `clientTsStr`, the second field of `sig` (undefined, here the empty string, when absent). */
  function ClientTsText(fields: seq<string>): string
  {
    if |fields| >= 2 then fields[1] else ""
  }

  /** `parseInt(process.env.RATE_PER_MIN || '10', 10)`; `None` is NaN. */
  function RateLimit(config: Config): Option<int>
  {
    ParseInt(EnvOr(config.ratePerMin, DefaultRatePerMin))
  }

  function Abs(x: int): nat
  {
    if x < 0 then -x else x
  }

  /** `Number.isFinite(score) && !(score < 0)`. */
  predicate ScoreIsValid(s: Submission)
  {
    IsFiniteNumber(s.score) && !NumberBelow(s.score.n, 0.0)
  }

  /** `reName.test(username || '')`. */
  predicate UsernameIsValid(s: Submission, numberText: NumberText)
  {
    MatchesNamePattern(ToStr(Or(s.username, Str("")), numberText))
  }

  /** `!badWords.some(rx => rx.test(username))`. */
  predicate UsernameIsClean(s: Submission, numberText: NumberText)
  {
    !HasProfanity(ToStr(s.username, numberText))
  }

  /** `ts && sig`: both are present and truthy; `ts` is not used otherwise. */
  predicate TokenIsPresent(s: Submission)
  {
    Truthy(s.ts) && Truthy(s.sig)
  }

  /** `token && clientTsStr`: the first two `|`-fields of `sig` are non-empty. */
  predicate SigIsWellFormed(fields: seq<string>)
    requires |fields| > 0
  {
    fields[0] != "" && ClientTsText(fields) != ""
  }

  /** `verifyIssuedToken(token)`. */
  predicate TokenIsValid(fields: seq<string>, ctx: Context)
    requires |fields| > 0
  {
    VerifyIssuedToken(Str(fields[0]), ctx.config.hmacSecret, ctx.platform.now, ctx.platform.hmac)
  }

  /** `Number.isFinite(clientTs) && !(Math.abs(nowSec() - clientTs) > 15*60)`. */
  predicate ClockIsInWindow(fields: seq<string>, now: int)
  {
    var clientTs := ParseInt(ClientTsText(fields));
    clientTs.Some? && !(Abs(now - clientTs.value) > ClockSkewLimit)
  }

  /** `!(recent >= limit)`, which holds when the limit is NaN. */
  predicate UnderRateLimit(ctx: Context)
  {
    var limit := RateLimit(ctx.config);
    !(limit.Some? && CountRecentByIp(ctx.storage) >= limit.value)
  }

  /** `!(score > 2_000_000_000)`; only finite numbers reach this check. */
  predicate ScoreUnderCeiling(s: Submission)
  {
    !(s.score.Num? && NumberAbove(s.score.n, ScoreCeiling))
  }

  /** The verdict of every check on one submission, each field named after what it confirms. */
  datatype Verdicts = Verdicts(
    scoreValid: bool, usernameValid: bool, usernameClean: bool, tokenPresent: bool,
    sigWellFormed: bool, tokenValid: bool, clockInWindow: bool, underRateLimit: bool,
    scoreUnderCeiling: bool)

  /** Each check of the chain evaluated on the submission. All of them are total, so evaluating
      one that the chain would skip changes nothing. */
  function Checks(s: Submission, ctx: Context): Verdicts
  {
    var numberText := ctx.platform.numberText;
    var fields := SigFields(s, numberText);
    Verdicts(ScoreIsValid(s), UsernameIsValid(s, numberText), UsernameIsClean(s, numberText),
      TokenIsPresent(s), SigIsWellFormed(fields), TokenIsValid(fields, ctx),
      ClockIsInWindow(fields, ctx.platform.now), UnderRateLimit(ctx), ScoreUnderCeiling(s))
  }

  /** Whether the verdicts get past the check that refuses with `r`. */
  predicate Passes(r: Rejection, v: Verdicts)
  {
    match r
    case InvalidScore => v.scoreValid
    case InvalidUsername => v.usernameValid
    case Profanity => v.usernameClean
    case MissingToken => v.tokenPresent
    case MalformedSig => v.sigWellFormed
    case InvalidToken => v.tokenValid
    case ClockSkew => v.clockInWindow
    case RateLimited => v.underRateLimit
    case ScoreTooLarge => v.scoreUnderCeiling
  }

  /** The first check of `order` at or after position `k` that fails, if any: the reference for
      short-circuit evaluation. */
  function FirstFailure(order: seq<Rejection>, v: Verdicts, k: nat): Option<Rejection>
    decreases |order| - k
  {
    if k >= |order| then None
    else if !Passes(order[k], v) then Some(order[k])
    else FirstFailure(order, v, k + 1)
  }

  /** From position `k` on, `FirstFailure` finds nothing exactly when every later check passes, and
      otherwise names a failing check that every check between `k` and it passes. */
  lemma {:induction false} FirstFailureIsFirst(order: seq<Rejection>, v: Verdicts, k: nat)
    ensures FirstFailure(order, v, k).None? <==> forall j :: k <= j < |order| ==> Passes(order[j], v)
    ensures FirstFailure(order, v, k).Some? ==>
      exists i :: (k <= i < |order| && order[i] == FirstFailure(order, v, k).value
        && !Passes(order[i], v) && forall j :: k <= j < i ==> Passes(order[j], v))
    decreases |order| - k
  {
    if k < |order| && Passes(order[k], v) {
      FirstFailureIsFirst(order, v, k + 1);
    }
  }

  /** The row an accepted submission writes: the name and score as sent, `fingerprint || null`,
      and the client's address hash. Only a submission past the score check is written, so the
      score is then a finite number and the `0.0` is never stored. */
  function RowOf(s: Submission, ctx: Context): ScoreRow
  {
    ScoreRow(s.username, if IsFiniteNumber(s.score) then s.score.n.value else 0.0, Or(s.fingerprint, Null), ctx.ipHash)
  }

  /** The validation chain of the handler (lines 17 to 37) over the verdicts of its checks: each
      check in turn, the first that fails answers, and when none fails `row` is inserted. */
  function Chain(v: Verdicts, row: ScoreRow): Outcome
  {
    if !v.scoreValid then Reject(InvalidScore)
    else if !v.usernameValid then Reject(InvalidUsername)
    else if !v.usernameClean then Reject(Profanity)
    else if !v.tokenPresent then Reject(MissingToken)
    else if !v.sigWellFormed then Reject(MalformedSig)
    else if !v.tokenValid then Reject(InvalidToken)
    else if !v.clockInWindow then Reject(ClockSkew)
    else if !v.underRateLimit then Reject(RateLimited)
    else if !v.scoreUnderCeiling then Reject(ScoreTooLarge)
    else InsertThenOk(row)
  }

  /** What the handler does with a parsed body. */
  function Validate(s: Submission, ctx: Context): Outcome
  {
    Chain(Checks(s, ctx), RowOf(s, ctx))
  }

  /** The text of the `x-forwarded-for` header, empty when the header is absent. */
  function HeaderText(forwardedFor: Option<string>): string
  {
    if forwardedFor.Some? then forwardedFor.value else ""
  }

  /** `k` is the position of the first `,` of `header`, or its length when it has none. */
  predicate IsFirstFieldEnd(header: string, k: int)
  {
    0 <= k <= |header| && ',' !in header[..k] && (k < |header| ==> header[k] == ',')
  }

  /** The client address: the text of `x-forwarded-for` up to its first `,` (all of it when it
      has none), with the white space at both ends removed; empty without the header. */
  function ClientIp(forwardedFor: Option<string>): (ip: string)
    ensures forwardedFor.None? ==> ip == ""
    ensures ',' !in ip
    ensures |ip| > 0 ==> !IsJsWhiteSpace(ip[0]) && !IsJsWhiteSpace(ip[|ip| - 1])
    ensures exists k, i, j ::
      IsFirstFieldEnd(HeaderText(forwardedFor), k)
      && IsInnerSlice(HeaderText(forwardedFor)[..k], ip, i, j)
  {
    var header := HeaderText(forwardedFor);
    var first := Split(header, ',')[0];
    TrimIsInnerSlice(first);
    FirstFieldTrimmed(header);
    Trim(first)
  }

  /** The first `,`-separated field of `header`, trimmed, is a slice of the text in front of the
      first `,` that loses only white space on either side. */
  lemma FirstFieldTrimmed(header: string)
    ensures exists k, i, j ::
      IsFirstFieldEnd(header, k) && IsInnerSlice(header[..k], Trim(Split(header, ',')[0]), i, j)
  {
    var k := FirstIndex(header, ',');
    SplitFirstPart(header, ',');
    var first := header[..k];
    assert IsFirstFieldEnd(header, k);
    TrimIsInnerSlice(first);
    var i, j :| IsInnerSlice(first, Trim(first), i, j);
  }

  /** `sha256(`${ip}:${process.env.HS_PEPPER||'pepper'}`)`. */
  function IpHash(forwardedFor: Option<string>, config: Config, sha256: string -> string): string
  {
    sha256(ClientIp(forwardedFor) + ":" + EnvOr(config.pepper, DefaultPepper))
  }

  /** `handler(req)`: method dispatch, body parsing, then the validation chain. */
  function Handle(req: Request, config: Config, p: Platform, storage: StorageReply): (o: Outcome)
    ensures req.verb == "OPTIONS" ==> o == Respond(Ok(EmptyObject))
    ensures req.verb != "OPTIONS" && req.verb != "POST" ==> o == Respond(MethodNotAllowed)
    ensures req.verb == "POST" && req.body == None ==> o == Respond(Bad(400, "Invalid JSON"))
    ensures o.InsertThenOk? ==> req.verb == "POST" && req.body.Some?
    ensures req.verb == "POST" && req.body.Some? ==>
      var ipHash := p.sha256(ClientIp(req.forwardedFor) + ":" + EnvOr(config.pepper, DefaultPepper));
      o == Validate(req.body.value, Context(config, p, ipHash, storage))
  {
    if req.verb == "OPTIONS" then Respond(Ok(EmptyObject))
    else if req.verb != "POST" then Respond(MethodNotAllowed)
    else
      var ctx := Context(config, p, IpHash(req.forwardedFor, config, p.sha256), storage);
      match req.body
      case None => Respond(Bad(400, "Invalid JSON"))
      case Some(s) => Validate(s, ctx)
  }

  // ---------------------------------------------------------------- ordering

  /** The chain is the short-circuit evaluation of `CheckOrder`: it answers with the first
      failing check's status and message, and inserts the row when none fails. */
  lemma ChainIsFirstFailure(v: Verdicts, row: ScoreRow)
    ensures Chain(v, row) ==
      match FirstFailure(CheckOrder, v, 0)
      case Some(r) => Reject(r)
      case None => InsertThenOk(row)
  {
    var order := CheckOrder;
    assert FirstFailure(order, v, 8) == if !Passes(ScoreTooLarge, v) then Some(ScoreTooLarge) else FirstFailure(order, v, 9);
    assert FirstFailure(order, v, 7) == if !Passes(RateLimited, v) then Some(RateLimited) else FirstFailure(order, v, 8);
    assert FirstFailure(order, v, 6) == if !Passes(ClockSkew, v) then Some(ClockSkew) else FirstFailure(order, v, 7);
    assert FirstFailure(order, v, 5) == if !Passes(InvalidToken, v) then Some(InvalidToken) else FirstFailure(order, v, 6);
    assert FirstFailure(order, v, 4) == if !Passes(MalformedSig, v) then Some(MalformedSig) else FirstFailure(order, v, 5);
    assert FirstFailure(order, v, 3) == if !Passes(MissingToken, v) then Some(MissingToken) else FirstFailure(order, v, 4);
    assert FirstFailure(order, v, 2) == if !Passes(Profanity, v) then Some(Profanity) else FirstFailure(order, v, 3);
    assert FirstFailure(order, v, 1) == if !Passes(InvalidUsername, v) then Some(InvalidUsername) else FirstFailure(order, v, 2);
    assert FirstFailure(order, v, 0) == if !Passes(InvalidScore, v) then Some(InvalidScore) else FirstFailure(order, v, 1);
  }

  /** The chain rejects with the `i`-th reason exactly when that check fails and every earlier one
      passes: a submission failing several checks reports the earliest. */
  lemma RejectionIsFirstFailure(s: Submission, ctx: Context, i: nat)
    requires i < |CheckOrder|
    ensures var v := Checks(s, ctx);
      Validate(s, ctx) == Reject(CheckOrder[i]) <==>
        !Passes(CheckOrder[i], v) && forall j :: 0 <= j < i ==> Passes(CheckOrder[j], v)
  {
    var v := Checks(s, ctx);
    ChainIsFirstFailure(v, RowOf(s, ctx));
    FirstFailureIsFirst(CheckOrder, v, 0);
    var failed := FirstFailure(CheckOrder, v, 0);
    if failed.Some? {
      var k :| 0 <= k < |CheckOrder| && CheckOrder[k] == failed.value
        && !Passes(CheckOrder[k], v) && forall j :: 0 <= j < k ==> Passes(CheckOrder[j], v);
      assert Validate(s, ctx) == Reject(CheckOrder[k]);
      RejectInjective(CheckOrder[k], CheckOrder[i]);
      CheckOrderDistinct(k, i);
      if !Passes(CheckOrder[i], v) && forall j :: 0 <= j < i ==> Passes(CheckOrder[j], v) {
        // neither of two failing checks can come before the other
        assert !(k < i) && !(i < k);
      }
    }
  }

  lemma RejectInjective(a: Rejection, b: Rejection)
    ensures Reject(a) == Reject(b) ==> a == b
  {
  }

  lemma CheckOrderDistinct(i: nat, j: nat)
    requires i < |CheckOrder| && j < |CheckOrder|
    ensures CheckOrder[i] == CheckOrder[j] ==> i == j
  {
  }

  /** A row is written exactly when every check passes, and it is the submission's row. */
  lemma InsertIffAllPass(s: Submission, ctx: Context)
    ensures Validate(s, ctx).InsertThenOk? <==>
      forall j :: 0 <= j < |CheckOrder| ==> Passes(CheckOrder[j], Checks(s, ctx))
    ensures Validate(s, ctx).InsertThenOk? ==> IsFiniteNumber(s.score) && Validate(s, ctx).row == RowOf(s, ctx)
  {
    ChainIsFirstFailure(Checks(s, ctx), RowOf(s, ctx));
    FirstFailureIsFirst(CheckOrder, Checks(s, ctx), 0);
  }

  // ---------------------------------------------------------------- what each check means

  /** The score check at the head of the chain and the ceiling at its end: a finite number
      `0 <= score <= 2_000_000_000` gets past both, exactly. */
  lemma ScoreBounds(s: Submission)
    ensures ScoreIsValid(s) && ScoreUnderCeiling(s) <==>
      s.score.Num? && s.score.n.Finite? && 0.0 <= s.score.n.value <= ScoreCeiling
  {
  }

  /** A string name passes the two name checks iff it has 1 to 16 characters of
      `[A-Za-z0-9_\- ]` and none of the bad words occurs in it, in any ASCII case. */
  lemma NameChecks(name: string, s: Submission, ctx: Context)
    requires s.username == Str(name)
    ensures UsernameIsValid(s, ctx.platform.numberText) && UsernameIsClean(s, ctx.platform.numberText) <==>
      && 1 <= |name| <= 16
      && (forall i :: 0 <= i < |name| ==> IsNameChar(name[i]))
      && forall k, i: nat :: 0 <= k < |BadWords| && i + |BadWords[k]| <= |name| ==> !MatchesAt(name, BadWords[k], i)
  {
    if name == "" {
      assert !UsernameIsValid(s, ctx.platform.numberText);
    }
  }

  /** A missing (falsy) username is tested as the empty string and fails. */
  lemma MissingUsernameRejected(s: Submission, ctx: Context)
    requires !Truthy(s.username)
    ensures !UsernameIsValid(s, ctx.platform.numberText)
  {
    assert Or(s.username, Str("")) == Str("");
  }

  /** `sig` is split on `|`: with a non-empty token field and a non-empty second field the sig is
      well formed, and the fields after the second are ignored. */
  lemma SigExtraFieldsIgnored(s: Submission, ctx: Context, token: string, clientTs: string, rest: string)
    requires s.sig == Str(token + "|" + clientTs + "|" + rest)
    requires token != "" && clientTs != "" && '|' !in token && '|' !in clientTs
    ensures SigIsWellFormed(SigFields(s, ctx.platform.numberText))
    ensures SigFields(s, ctx.platform.numberText)[0] == token
    ensures ClientTsText(SigFields(s, ctx.platform.numberText)) == clientTs
  {
    var tail := clientTs + "|" + rest;
    assert ToStr(s.sig, ctx.platform.numberText) == token + "|" + tail;
    SplitCons(token, '|', tail);
    SplitCons(clientTs, '|', rest);
    var fields := SigFields(s, ctx.platform.numberText);
    assert fields == [token] + ([clientTs] + Split(rest, '|'));
    assert fields[0] == token && fields[1] == clientTs;
  }

  /** A `sig` without any `|` has no second field and is malformed. */
  lemma SigWithoutBarMalformed(s: Submission, ctx: Context, text: string)
    requires s.sig == Str(text) && '|' !in text
    ensures !SigIsWellFormed(SigFields(s, ctx.platform.numberText))
  {
    SplitWithout(text, '|');
  }

  /** `ts` is only tested for truthiness: replacing it by any value of the same truthiness changes
      nothing in the outcome. */
  lemma TsOnlyTestedForTruthiness(s: Submission, ctx: Context, ts: JsValue)
    requires Truthy(ts) == Truthy(s.ts)
    ensures Validate(s.(ts := ts), ctx) == Validate(s, ctx)
  {
    assert Checks(s.(ts := ts), ctx) == Checks(s, ctx);
  }

  /** The clock-skew window is inclusive: a decimal client time `c` passes iff `|now - c| <= 900`. */
  lemma ClockSkewWindow(fields: seq<string>, now: int, c: int)
    requires ClientTsText(fields) == IntToDecimal(c)
    ensures ClockIsInWindow(fields, now) <==> now - ClockSkewLimit <= c <= now + ClockSkewLimit
  {
    ParseIntOfDecimal(c);
  }

  /** With `RATE_PER_MIN` unset or empty the limit is 10: refused iff at least 10 recent rows. */
  lemma DefaultRateLimit(ctx: Context)
    requires ctx.config.ratePerMin == None || ctx.config.ratePerMin == Some("")
    ensures UnderRateLimit(ctx) <==> CountRecentByIp(ctx.storage) < 10
  {
    assert EnvOr(ctx.config.ratePerMin, DefaultRatePerMin) == "10";
    assert DecimalValue("10") == 10 by {
      assert "10"[..1] == "1";
    }
    ParseIntOfDigits("10");
  }

  /** The limiter fails open: on a non-ok reply the count is 0, so any positive or NaN limit admits. */
  lemma RateLimitFailsOpen(ctx: Context)
    requires ctx.storage == NotOk
    requires RateLimit(ctx.config).None? || RateLimit(ctx.config).value > 0
    ensures UnderRateLimit(ctx)
  {
  }

  /** A `RATE_PER_MIN` with no digit and no sign after its leading white space parses to NaN, and nothing is ever rate limited. */
  lemma NonNumericLimitNeverLimits(ctx: Context, setting: string)
    requires ctx.config.ratePerMin == Some(setting) && setting != ""
    requires LeadingDigits(TrimStart(setting)) == []
    requires |TrimStart(setting)| > 0 ==> TrimStart(setting)[0] != '-' && TrimStart(setting)[0] != '+'
    ensures UnderRateLimit(ctx)
  {
  }

  // ---------------------------------------------------------------- end to end

  /** The `sig` a client sends: an issued token and its own clock reading, `<token>|<clientTs>`. */
  function SigFor(token: string, clientTs: int): string
  {
    token + "|" + IntToDecimal(clientTs)
  }

  /** An issued token contains no `|`, so it survives the `sig` split intact. */
  lemma IssuedTokenHasNoBar(issuedAt: int, secret: string, hmac: Hmac)
    requires HexDigests(hmac)
    ensures '|' !in Issue(issuedAt, secret, hmac).token
  {
    var exp := issuedAt + TokenLifetime;
    var sig := hmac(secret, Payload(issuedAt, exp));
    HexHasNoSeparator(sig);
    RenderingHasNoBar(issuedAt);
    RenderingHasNoBar(exp);
    assert Issue(issuedAt, secret, hmac).token == IntToDecimal(issuedAt) + "." + IntToDecimal(exp) + "." + sig;
  }

  lemma RenderingHasNoBar(i: int)
    ensures '|' !in IntToDecimal(i)
  {
    if i < 0 {
      NoDotInDigits(NatToDecimal(-i));
      assert IntToDecimal(i) == "-" + NatToDecimal(-i);
    } else {
      NoDotInDigits(IntToDecimal(i));
    }
  }

  /** The two `|`-fields of a `sig` built by `SigFor`. */
  lemma SigForFields(s: Submission, numberText: NumberText, token: string, clientTs: int)
    requires s.sig == Str(SigFor(token, clientTs)) && '|' !in token
    ensures SigFields(s, numberText) == [token, IntToDecimal(clientTs)]
  {
    RenderingHasNoBar(clientTs);
    SplitCons(token, '|', IntToDecimal(clientTs));
    SplitWithout(IntToDecimal(clientTs), '|');
  }

  /** The parts of a submission the first four checks look at are acceptable: a clean name
      matching `reName`, a non-negative finite score, a truthy `ts` and a string `sig`. */
  predicate GoodEntry(s: Submission, name: string, score: real)
  {
    && s.username == Str(name) && MatchesNamePattern(name) && !HasProfanity(name)
    && s.score == Num(Finite(score)) && 0.0 <= score
    && Truthy(s.ts) && s.sig.Str? && s.sig.s != ""
  }

  /** A good entry passes the first four checks. */
  lemma GoodEntryPassesFirstChecks(s: Submission, ctx: Context, name: string, score: real)
    requires GoodEntry(s, name, score)
    ensures ScoreIsValid(s) && UsernameIsValid(s, ctx.platform.numberText)
    ensures UsernameIsClean(s, ctx.platform.numberText) && TokenIsPresent(s)
  {
    assert ScoreIsValid(s);
    assert Or(s.username, Str("")) == Str(name);
    assert UsernameIsValid(s, ctx.platform.numberText);
    assert UsernameIsClean(s, ctx.platform.numberText);
    assert TokenIsPresent(s);
  }

  /** The checks on `sig`, for the fields `[token, clientTs]` of a token that verifies and a
      client time within 900 seconds. */
  lemma VerifiedSigPassesChecks(s: Submission, ctx: Context, token: string, clientTs: int)
    requires SigFields(s, ctx.platform.numberText) == [token, IntToDecimal(clientTs)]
    requires VerifyIssuedToken(Str(token), ctx.config.hmacSecret, ctx.platform.now, ctx.platform.hmac)
    ensures SigIsWellFormed(SigFields(s, ctx.platform.numberText)) && TokenIsValid(SigFields(s, ctx.platform.numberText), ctx)
    ensures ClockIsInWindow(SigFields(s, ctx.platform.numberText), ctx.platform.now) <==> Abs(ctx.platform.now - clientTs) <= ClockSkewLimit
  {
    var fields := SigFields(s, ctx.platform.numberText);
    assert fields[0] == token && ClientTsText(fields) == IntToDecimal(clientTs);
    assert SigIsWellFormed(fields);
    assert TokenIsValid(fields, ctx);
    ClockSkewWindow(fields, ctx.platform.now, clientTs);
    assert ClockIsInWindow(SigFields(s, ctx.platform.numberText), ctx.platform.now) == ClockIsInWindow(fields, ctx.platform.now);
  }

  /** What a `sig` built from an issued, unexpired token gives the checks: its two fields, and a
      token that verifies. */
  lemma IssuedSig(s: Submission, ctx: Context, issuedAt: int, clientTs: int)
    requires HexDigests(ctx.platform.hmac)
    requires 0 <= issuedAt && ctx.platform.now <= issuedAt + TokenLifetime
    requires s.sig == Str(SigFor(Issue(issuedAt, ctx.config.hmacSecret, ctx.platform.hmac).token, clientTs))
    ensures var token := Issue(issuedAt, ctx.config.hmacSecret, ctx.platform.hmac).token;
      && SigFields(s, ctx.platform.numberText) == [token, IntToDecimal(clientTs)]
      && VerifyIssuedToken(Str(token), ctx.config.hmacSecret, ctx.platform.now, ctx.platform.hmac)
  {
    var p := ctx.platform;
    var token := Issue(issuedAt, ctx.config.hmacSecret, p.hmac).token;
    IssuedTokenHasNoBar(issuedAt, ctx.config.hmacSecret, p.hmac);
    SigForFields(s, p.numberText, token, clientTs);
    IssueThenVerify(issuedAt, p.now, ctx.config.hmacSecret, p.hmac);
  }

  /** A submission with a good entry and a `sig` built from a token issued at `issuedAt` passes
      every check up to the rate limit while the token is unexpired and the client time is within
      900 seconds of the server's. */
  lemma FreshTokenPassesChecks(s: Submission, ctx: Context, name: string, score: real, issuedAt: int, clientTs: int)
    requires GoodEntry(s, name, score)
    requires HexDigests(ctx.platform.hmac)
    requires 0 <= issuedAt && ctx.platform.now <= issuedAt + TokenLifetime
    requires Abs(ctx.platform.now - clientTs) <= ClockSkewLimit
    requires s.sig == Str(SigFor(Issue(issuedAt, ctx.config.hmacSecret, ctx.platform.hmac).token, clientTs))
    ensures ScoreIsValid(s) && UsernameIsValid(s, ctx.platform.numberText)
    ensures UsernameIsClean(s, ctx.platform.numberText) && TokenIsPresent(s)
    ensures SigIsWellFormed(SigFields(s, ctx.platform.numberText)) && TokenIsValid(SigFields(s, ctx.platform.numberText), ctx) && ClockIsInWindow(SigFields(s, ctx.platform.numberText), ctx.platform.now)
  {
    GoodEntryPassesFirstChecks(s, ctx, name, score);
    IssuedSig(s, ctx, issuedAt, clientTs);
    VerifiedSigPassesChecks(s, ctx, Issue(issuedAt, ctx.config.hmacSecret, ctx.platform.hmac).token, clientTs);
  }

  /** A clean submission `{ username, score, ts, sig: "<token>|<clientTs>" }` with a token issued at
      `issuedAt`, sent while the token is unexpired, with the client clock within 900 seconds,
      below the rate limit and with `score <= 2_000_000_000`, is inserted as one row carrying
      the name, the score, `fingerprint || null` and the address hash. */
  lemma FreshSubmissionAccepted(s: Submission, ctx: Context, name: string, score: real, issuedAt: int, clientTs: int)
    requires GoodEntry(s, name, score) && score <= ScoreCeiling
    requires HexDigests(ctx.platform.hmac)
    requires 0 <= issuedAt && ctx.platform.now <= issuedAt + TokenLifetime
    requires Abs(ctx.platform.now - clientTs) <= ClockSkewLimit
    requires s.sig == Str(SigFor(Issue(issuedAt, ctx.config.hmacSecret, ctx.platform.hmac).token, clientTs))
    requires UnderRateLimit(ctx)
    ensures Validate(s, ctx) == InsertThenOk(ScoreRow(Str(name), score, Or(s.fingerprint, Null), ctx.ipHash))
  {
    FreshTokenPassesChecks(s, ctx, name, score, issuedAt, clientTs);
    assert UnderRateLimit(ctx);
    assert ScoreUnderCeiling(s);
  }

  /** Scenario: "Ace_01" scores 500 with a token issued at `issuedAt > 0`, the client sending the
      server's own time, well inside the token's life, with fewer than 10 recent submissions and the
      default limit: the score is written. */
  lemma AceScenarioAccepted(s: Submission, ctx: Context, issuedAt: int, recent: nat)
    requires HexDigests(ctx.platform.hmac)
    requires 0 < issuedAt <= ctx.platform.now <= issuedAt + TokenLifetime
    requires s == Submission(Str("Ace_01"), Num(Finite(500.0)), Num(Finite(issuedAt as real)),
      Str(SigFor(Issue(issuedAt, ctx.config.hmacSecret, ctx.platform.hmac).token, ctx.platform.now)), Undefined)
    requires ctx.config.ratePerMin == None && ctx.storage == Rows(recent) && recent < 10
    ensures Validate(s, ctx) == InsertThenOk(ScoreRow(Str("Ace_01"), 500.0, Null, ctx.ipHash))
  {
    AceEntryIsGood(s, issuedAt);
    DefaultRateLimit(ctx);
    assert Abs(ctx.platform.now - ctx.platform.now) == 0;
    FreshSubmissionAccepted(s, ctx, "Ace_01", 500.0, issuedAt, ctx.platform.now);
    assert Or(s.fingerprint, Null) == Null;
  }

  lemma AceEntryIsGood(s: Submission, issuedAt: int)
    requires 0 < issuedAt && s.username == Str("Ace_01") && s.score == Num(Finite(500.0))
    requires s.ts == Num(Finite(issuedAt as real)) && s.sig.Str? && s.sig.s != ""
    ensures GoodEntry(s, "Ace_01", 500.0)
  {
    assert MatchesNamePattern("Ace_01");
    NoBadWordInAce();
  }

  lemma NoBadWordInAce()
    ensures !HasProfanity("Ace_01")
  {
    var name := "Ace_01";
    forall k, i: nat | 0 <= k < |BadWords| && i + |BadWords[k]| <= |name|
      ensures !MatchesAt(name, BadWords[k], i)
    {
      assert AsciiLower(name[i]) != AsciiLower(BadWords[k][0]);
    }
  }

  /** Scenario: replacing the tag of an issued token by any other string without `.` or `|`
      makes an otherwise good submission fail with 401 "Invalid token". */
  lemma ForgedTokenRejected(s: Submission, ctx: Context, name: string, score: real, issuedAt: int, forged: string, clientTs: int)
    requires GoodEntry(s, name, score)
    requires 0 <= issuedAt
    requires '.' !in forged && '|' !in forged
    requires forged != ctx.platform.hmac(ctx.config.hmacSecret, Payload(issuedAt, issuedAt + TokenLifetime))
    requires s.sig == Str(SigFor(Payload(issuedAt, issuedAt + TokenLifetime) + "." + forged, clientTs))
    ensures Validate(s, ctx) == Reject(InvalidToken)
  {
    var p := ctx.platform;
    var ts', exp' := IntToDecimal(issuedAt), IntToDecimal(issuedAt + TokenLifetime);
    var token := ts' + "." + exp' + "." + forged;
    RenderingHasNoBar(issuedAt);
    RenderingHasNoBar(issuedAt + TokenLifetime);
    assert '|' !in token;
    SigForFields(s, p.numberText, token, clientTs);
    AlteredSignatureRejected(ts', exp', forged, ctx.config.hmacSecret, p.now, p.hmac);
    GoodEntryPassesFirstChecks(s, ctx, name, score);
    assert SigIsWellFormed(SigFields(s, ctx.platform.numberText)) by {
      assert SigIsWellFormed(SigFields(s, p.numberText));
    }
    assert !TokenIsValid(SigFields(s, ctx.platform.numberText), ctx);
  }

  /** Scenario: a client clock `1000` seconds (or any amount over 900) away from the server's fails
      with 401 "Clock skew", even with a valid token. */
  lemma SkewedClockRejected(s: Submission, ctx: Context, name: string, score: real, issuedAt: int, clientTs: int)
    requires GoodEntry(s, name, score)
    requires HexDigests(ctx.platform.hmac)
    requires 0 <= issuedAt && ctx.platform.now <= issuedAt + TokenLifetime
    requires Abs(ctx.platform.now - clientTs) > ClockSkewLimit
    requires s.sig == Str(SigFor(Issue(issuedAt, ctx.config.hmacSecret, ctx.platform.hmac).token, clientTs))
    ensures Validate(s, ctx) == Reject(ClockSkew)
  {
    GoodEntryPassesFirstChecks(s, ctx, name, score);
    IssuedSig(s, ctx, issuedAt, clientTs);
    VerifiedSigPassesChecks(s, ctx, Issue(issuedAt, ctx.config.hmacSecret, ctx.platform.hmac).token, clientTs);
  }

  /** Scenario: with the default limit and 10 recent rows for the client, an otherwise valid
      submission fails with 429 "Rate limited", whatever its score: the rate check comes before
      the score ceiling. */
  lemma EleventhSubmissionRateLimited(s: Submission, ctx: Context, name: string, score: real, issuedAt: int, clientTs: int)
    requires GoodEntry(s, name, score)
    requires HexDigests(ctx.platform.hmac)
    requires 0 <= issuedAt && ctx.platform.now <= issuedAt + TokenLifetime
    requires Abs(ctx.platform.now - clientTs) <= ClockSkewLimit
    requires s.sig == Str(SigFor(Issue(issuedAt, ctx.config.hmacSecret, ctx.platform.hmac).token, clientTs))
    requires ctx.config.ratePerMin == None && ctx.storage == Rows(10)
    ensures Validate(s, ctx) == Reject(RateLimited)
  {
    FreshTokenPassesChecks(s, ctx, name, score, issuedAt, clientTs);
    DefaultRateLimit(ctx);
    assert !UnderRateLimit(ctx);
  }

  /** Scenario: a score above 2,000,000,000 (3,000,000,000, say) with a valid token, below the
      rate limit, fails with 400 "Score too large". */
  lemma HugeScoreRejected(s: Submission, ctx: Context, name: string, score: real, issuedAt: int, clientTs: int)
    requires GoodEntry(s, name, score) && score > ScoreCeiling
    requires HexDigests(ctx.platform.hmac)
    requires 0 <= issuedAt && ctx.platform.now <= issuedAt + TokenLifetime
    requires Abs(ctx.platform.now - clientTs) <= ClockSkewLimit
    requires s.sig == Str(SigFor(Issue(issuedAt, ctx.config.hmacSecret, ctx.platform.hmac).token, clientTs))
    requires UnderRateLimit(ctx)
    ensures Validate(s, ctx) == Reject(ScoreTooLarge)
  {
    FreshTokenPassesChecks(s, ctx, name, score, issuedAt, clientTs);
    assert UnderRateLimit(ctx);
    assert !ScoreUnderCeiling(s);
  }
}
