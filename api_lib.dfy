/** The shared helpers of the API (api/_lib.js): the clock, stateless verification of an issued
    token, and the fail-open count of recent submissions from one client. */
module ApiLib {
  import opened JsStrings
  import opened JsValues

  /** `hmac(secret, message)`: the hex digest of HMAC-SHA-256. The primitive is a parameter. */
  type Hmac = (string, string) -> string

  predicate IsLowerHex(s: string)
  {
    forall i :: 0 <= i < |s| ==> '0' <= s[i] <= '9' || 'a' <= s[i] <= 'f'
  }

  /** What `digest("hex")` guarantees of the primitive: every tag is lower-case hexadecimal. */
  ghost predicate HexDigests(hmac: Hmac)
  {
    forall key, msg :: IsLowerHex(hmac(key, msg))
  }

  lemma HexHasNoSeparator(s: string)
    requires IsLowerHex(s)
    ensures '.' !in s && '|' !in s && '-' !in s
  {
  }

  /** `nowSec()`: whole seconds of a millisecond clock reading, rounded down. */
  function NowSec(epochMillis: int): (t: int)
    ensures t * 1000 <= epochMillis < t * 1000 + 1000
  {
    epochMillis / 1000
  }

  /** `verifyIssuedToken(token)` with the (set) secret and the clock reading made explicit. Every input,
      of any type, yields a boolean: a missing, empty or non-string token, a token that does not
      split into three `.`-separated fields, non-digit `ts`/`exp` fields, a third field other than
      the tag of `ts.exp`, or `now` past `exp` all give false. `ts` is never compared with `now`. */
  function VerifyIssuedToken(token: JsValue, secret: string, now: int, hmac: Hmac): (valid: bool)
    ensures valid ==> token.Str? && token.s != ""
    ensures valid ==>
      var parts := Split(token.s, '.');
      && |parts| == 3
      && IsDigitString(parts[0]) && IsDigitString(parts[1])
      && parts[2] == hmac(secret, parts[0] + "." + parts[1])
      && now <= DecimalValue(parts[1])
  {
    if !Truthy(token) || !token.Str? then false
    else
      var parts := Split(token.s, '.');
      if |parts| != 3 then false
      else
        var tsStr, expStr, sig := parts[0], parts[1], parts[2];
        if !IsDigitString(tsStr) || !IsDigitString(expStr) then false
        else if hmac(secret, tsStr + "." + expStr) != sig then false
        else
          var exp := ParseInt(expStr);
          // a comparison with NaN is false; on a digit string parseInt never yields NaN
          if exp.Some? && now > exp.value then false
          else
            ParseIntOfDigits(expStr);
            true
  }

  /** The tokens that verify at `now` are exactly the strings `ts.exp.tag`, with `ts` and `exp`
      non-empty digit strings, `tag` the (dot-free) tag of `ts.exp` and `now <= exp`. */
  lemma VerifyCharacterisation(t: string, secret: string, now: int, hmac: Hmac)
    ensures VerifyIssuedToken(Str(t), secret, now, hmac) <==>
      exists ts: string, exp: string ::
        && IsDigitString(ts) && IsDigitString(exp)
        && '.' !in hmac(secret, ts + "." + exp)
        && t == ts + "." + exp + "." + hmac(secret, ts + "." + exp)
        && now <= DecimalValue(exp)
  {
    if VerifyIssuedToken(Str(t), secret, now, hmac) {
      var parts := Split(t, '.');
      var ts, exp := parts[0], parts[1];
      assert Join(parts, '.') == t;
      assert parts[1..] == [exp, parts[2]];
      assert parts[1..][1..] == [parts[2]];
      assert Join(parts[1..], '.') == exp + "." + parts[2];
      assert t == ts + "." + (exp + "." + parts[2]);
      assert t == ts + "." + exp + "." + hmac(secret, ts + "." + exp);
    }
    if exists ts: string, exp: string ::
        && IsDigitString(ts) && IsDigitString(exp)
        && '.' !in hmac(secret, ts + "." + exp)
        && t == ts + "." + exp + "." + hmac(secret, ts + "." + exp)
        && now <= DecimalValue(exp)
    {
      var ts: string, exp: string :|
        && IsDigitString(ts) && IsDigitString(exp)
        && '.' !in hmac(secret, ts + "." + exp)
        && t == ts + "." + exp + "." + hmac(secret, ts + "." + exp)
        && now <= DecimalValue(exp);
      VerifyOfWellFormed(ts, exp, hmac(secret, ts + "." + exp), secret, now, hmac);
    }
  }

  /** The verdict on a token `ts.exp.sig` built from dot-free fields with digit-only `ts` and
      `exp`: the MAC check and then the inclusive expiry decide. */
  lemma VerifyOfWellFormed(ts: string, exp: string, sig: string, secret: string, now: int, hmac: Hmac)
    requires IsDigitString(ts) && IsDigitString(exp) && '.' !in sig
    ensures VerifyIssuedToken(Str(ts + "." + exp + "." + sig), secret, now, hmac) <==>
      sig == hmac(secret, ts + "." + exp) && now <= DecimalValue(exp)
  {
    var t := ts + "." + exp + "." + sig;
    NoDotInDigits(ts);
    NoDotInDigits(exp);
    SplitThree(ts, exp, sig, '.');
    assert Split(t, '.') == [ts, exp, sig];
    assert t != "";
    ParseIntOfDigits(exp);
  }

  lemma NoDotInDigits(s: string)
    requires AllDigits(s)
    ensures '.' !in s && '|' !in s
  {
  }

  /** Forgery: a token of the issued shape whose tag is replaced by any other dot-free string
      fails at every clock reading. (Any token whose third field differs from the tag of the
      first two fails too: that is the contract of `VerifyIssuedToken` itself.) */
  lemma AlteredSignatureRejected(ts: string, exp: string, sig: string, secret: string, now: int, hmac: Hmac)
    requires IsDigitString(ts) && IsDigitString(exp) && '.' !in sig
    requires sig != hmac(secret, ts + "." + exp)
    ensures !VerifyIssuedToken(Str(ts + "." + exp + "." + sig), secret, now, hmac)
  {
    VerifyOfWellFormed(ts, exp, sig, secret, now, hmac);
  }

  /** Expiry is inclusive: a correctly signed token is accepted at `now == exp` and rejected one
      second later. */
  lemma ExpiryInclusive(ts: nat, exp: nat, secret: string, hmac: Hmac)
    requires '.' !in hmac(secret, NatToDecimal(ts) + "." + NatToDecimal(exp))
    ensures var t := NatToDecimal(ts) + "." + NatToDecimal(exp) + "." + hmac(secret, NatToDecimal(ts) + "." + NatToDecimal(exp));
      && VerifyIssuedToken(Str(t), secret, exp, hmac)
      && !VerifyIssuedToken(Str(t), secret, exp + 1, hmac)
  {
    var sig := hmac(secret, NatToDecimal(ts) + "." + NatToDecimal(exp));
    VerifyOfWellFormed(NatToDecimal(ts), NatToDecimal(exp), sig, secret, exp, hmac);
    VerifyOfWellFormed(NatToDecimal(ts), NatToDecimal(exp), sig, secret, exp + 1, hmac);
  }

  /** The `ts` field is never compared with `now`: a correctly signed token whose `ts` lies after
      its `exp`, or after `now`, still verifies until `exp`. */
  lemma IssuedAtIgnored(ts: nat, exp: nat, now: int, secret: string, hmac: Hmac)
    requires '.' !in hmac(secret, NatToDecimal(ts) + "." + NatToDecimal(exp))
    requires now <= exp
    ensures VerifyIssuedToken(Str(NatToDecimal(ts) + "." + NatToDecimal(exp) + "." + hmac(secret, NatToDecimal(ts) + "." + NatToDecimal(exp))), secret, now, hmac)
  {
    VerifyOfWellFormed(NatToDecimal(ts), NatToDecimal(exp), hmac(secret, NatToDecimal(ts) + "." + NatToDecimal(exp)), secret, now, hmac);
  }

  // ---------------------------------------------------------------- recent submissions

  /** A reply that reached `countRecentByIp`: a non-ok status, or an ok one whose JSON
      array of matching rows (created within the last 60 seconds for the client's hash) has `length`. */
  datatype StorageReply = NotOk | Rows(length: nat)

  /** `x | 0`: ToInt32, the 32-bit two's-complement wrap of an integer. */
  function ToInt32(x: int): (r: int)
    ensures -0x8000_0000 <= r < 0x8000_0000
    ensures (x - r) % 0x1_0000_0000 == 0
    ensures -0x8000_0000 <= x < 0x8000_0000 ==> r == x
  {
    var m := x % 0x1_0000_0000;
    if m >= 0x8000_0000 then m - 0x1_0000_0000 else m
  }

  /** The result of `countRecentByIp`: 0 on a non-ok reply (fail open), otherwise `arr.length|0`,
      which is the number of rows, and never negative below 2^31 rows. */
  function CountRecentByIp(reply: StorageReply): (count: int)
    ensures reply.NotOk? ==> count == 0
    ensures reply.Rows? && reply.length < 0x8000_0000 ==> count == reply.length
    ensures count < 0 ==> reply.Rows? && reply.length >= 0x8000_0000
  {
    match reply
    case NotOk => 0
    case Rows(length) => ToInt32(length)
  }
}
