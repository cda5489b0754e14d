/** The token endpoint (api/token.js): a GET issues a fresh self-verifying token
    `ts.exp.tag`, valid for 15 minutes, and reports its expiry. */
module TokenApi {
  import opened JsStrings
  import opened JsValues
  import opened Http
  import opened ApiLib

  /** Seconds a token stays valid (`15*60`). */
  const TokenLifetime: int := 15 * 60

  /** `${ts}.${exp}`: the signed payload. */
  function Payload(ts: int, exp: int): string
  {
    IntToDecimal(ts) + "." + IntToDecimal(exp)
  }

  /** What the endpoint returns on success: `{ token, expiresAt }`. */
  datatype IssuedToken = IssuedToken(token: string, expiresAt: int)

  /** The issuance body of the handler at clock reading `now`. */
  function Issue(now: int, secret: string, hmac: Hmac): (t: IssuedToken)
    ensures t.expiresAt == now + TokenLifetime && t.expiresAt > now
  {
    var ts := now;
    var exp := ts + TokenLifetime;
    var payload := Payload(ts, exp);
    var sig := hmac(secret, payload);
    IssuedToken(payload + "." + sig, exp)
  }

  /** `handler(req)` for a request with method `verb`: OPTIONS answers an empty object, any
      verb but GET is refused with 405, and only a GET issues a token. */
  function Handler(verb: string, now: int, secret: string, hmac: Hmac): (r: Response)
    ensures verb == "OPTIONS" ==> r == Ok(EmptyObject)
    ensures verb != "OPTIONS" && verb != "GET" ==> r == MethodNotAllowed
    ensures r.body.TokenBody? <==> verb == "GET"
    ensures verb == "GET" ==>
      r.status == 200 && r.body == TokenBody(Issue(now, secret, hmac).token, Issue(now, secret, hmac).expiresAt)
  {
    if verb == "OPTIONS" then Ok(EmptyObject)
    else if verb != "GET" then MethodNotAllowed
    else
      var t := Issue(now, secret, hmac);
      Ok(TokenBody(t.token, t.expiresAt))
  }

  /** A token issued at a non-negative time splits into its three fields: the decimal `ts` (which
      reads back as the issue time), the decimal `exp` (which reads back as the reported
      `expiresAt`) and the tag of `ts.exp`. */
  lemma IssuedTokenFields(now: int, secret: string, hmac: Hmac)
    requires now >= 0
    requires HexDigests(hmac)
    ensures var t := Issue(now, secret, hmac);
      var parts := Split(t.token, '.');
      && |parts| == 3
      && IsDigitString(parts[0]) && DecimalValue(parts[0]) == now
      && IsDigitString(parts[1]) && DecimalValue(parts[1]) == t.expiresAt
      && parts[2] == hmac(secret, parts[0] + "." + parts[1])
  {
    var exp := now + TokenLifetime;
    var ts', exp' := IntToDecimal(now), IntToDecimal(exp);
    var sig := hmac(secret, Payload(now, exp));
    HexHasNoSeparator(sig);
    NoDotInDigits(ts');
    NoDotInDigits(exp');
    SplitThree(ts', exp', sig, '.');
    assert Issue(now, secret, hmac).token == ts' + "." + exp' + "." + sig;
  }

  /** Round trip: a token issued at time `issuedAt >= 0` verifies at exactly the clock readings
      `now <= issuedAt + 900`; in particular at every `now` in `[issuedAt, issuedAt + 900]`, and at
      none after. */
  lemma IssueThenVerify(issuedAt: int, now: int, secret: string, hmac: Hmac)
    requires issuedAt >= 0
    requires HexDigests(hmac)
    ensures VerifyIssuedToken(Str(Issue(issuedAt, secret, hmac).token), secret, now, hmac)
            <==> now <= issuedAt + TokenLifetime
  {
    var exp := issuedAt + TokenLifetime;
    var sig := hmac(secret, Payload(issuedAt, exp));
    HexHasNoSeparator(sig);
    assert Issue(issuedAt, secret, hmac).token == IntToDecimal(issuedAt) + "." + IntToDecimal(exp) + "." + sig;
    VerifyOfWellFormed(IntToDecimal(issuedAt), IntToDecimal(exp), sig, secret, now, hmac);
  }

  /** A token issued with the clock before the epoch renders `ts` with a minus sign and never
      verifies. */
  lemma PreEpochTokenNeverVerifies(issuedAt: int, now: int, secret: string, hmac: Hmac)
    requires issuedAt < 0
    ensures !VerifyIssuedToken(Str(Issue(issuedAt, secret, hmac).token), secret, now, hmac)
  {
    var exp := issuedAt + TokenLifetime;
    var t := Issue(issuedAt, secret, hmac).token;
    var ts' := IntToDecimal(issuedAt);
    var rest := IntToDecimal(exp) + "." + hmac(secret, Payload(issuedAt, exp));
    assert t == ts' + "." + rest;
    assert '.' !in ts' by {
      assert ts'[0] == '-';
      NoDotInDigits(ts'[1..]);
      assert ts' == "-" + ts'[1..];
    }
    SplitCons(ts', '.', rest);
    assert Split(t, '.')[0] == ts';
  }
}
