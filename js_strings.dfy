/** The JavaScript string built-ins the API handlers rely on, on `string` = `seq<char>`:
    `split` with a one-character separator, `trim`, `parseInt(_, 10)`, the decimal rendering of
    an integral Number in a template literal, the `/^\d+$/` test and case-insensitive search
    for an ASCII word (`/word/i.test`). */
module JsStrings {

  datatype Option<+T> = None | Some(value: T)

  // ---------------------------------------------------------------- digits

  predicate IsDigit(c: char) { '0' <= c <= '9' }

  predicate AllDigits(s: string) { forall i :: 0 <= i < |s| ==> IsDigit(s[i]) }

  /** `/^\d+$/.test(s)`: without the `u` flag `\d` is exactly 0-9, and `$` matches only at the end. */
  predicate IsDigitString(s: string) { |s| > 0 && AllDigits(s) }

  function DigitValue(c: char): (d: nat)
    requires IsDigit(c)
    ensures d < 10
  {
    c as int - '0' as int
  }

  function DigitChar(d: nat): (c: char)
    requires d < 10
    ensures IsDigit(c) && DigitValue(c) == d
  {
    ('0' as int + d) as char
  }

  /** The value of a string of decimal digits, most significant digit first. */
  function DecimalValue(s: string): nat
    requires AllDigits(s)
    decreases |s|
  {
    if s == [] then 0 else 10 * DecimalValue(s[..|s| - 1]) + DigitValue(s[|s| - 1])
  }

  /** The shortest decimal rendering of a natural number; it is digit-only and reads back as `n`. */
  function NatToDecimal(n: nat): (s: string)
    ensures IsDigitString(s)
    ensures DecimalValue(s) == n
    decreases n
  {
    if n < 10 then [DigitChar(n)]
    else
      var front := NatToDecimal(n / 10);
      var s := front + [DigitChar(n % 10)];
      assert s[..|s| - 1] == front;
      s
  }

  /** `${i}` for an integral Number `i` (a `-` sign in front of a negative one). */
  function IntToDecimal(i: int): (s: string)
    ensures |s| > 0
    ensures IsDigitString(s) <==> i >= 0
    ensures i >= 0 ==> DecimalValue(s) == i
  {
    if i < 0 then
      var s := "-" + NatToDecimal(-i);
      assert !IsDigit(s[0]);
      s
    else NatToDecimal(i)
  }

  // ---------------------------------------------------------------- white space, trim

  /** StrWhiteSpaceChar of ECMAScript: WhiteSpace (TAB, VT, FF, ZWNBSP and the Zs category)
      and LineTerminator (LF, CR, LS, PS). `trim` and `parseInt` skip exactly these. */
  predicate IsJsWhiteSpace(c: char) {
    c == '\t' || c == '\n' || c == '\U{B}' || c == '\U{C}' || c == '\r' || c == ' '
    || c == '\U{A0}' || c == '\U{1680}' || ('\U{2000}' <= c <= '\U{200A}')
    || c == '\U{2028}' || c == '\U{2029}' || c == '\U{202F}' || c == '\U{205F}'
    || c == '\U{3000}' || c == '\U{FEFF}'
  }

  /** `s` without its leading white space. */
  function TrimStart(s: string): (r: string)
    ensures |r| <= |s| && r == s[|s| - |r|..]
    ensures |r| > 0 ==> !IsJsWhiteSpace(r[0])
    ensures forall i :: 0 <= i < |s| - |r| ==> IsJsWhiteSpace(s[i])
    decreases |s|
  {
    if |s| > 0 && IsJsWhiteSpace(s[0]) then TrimStart(s[1..]) else s
  }

  /** `s` without its trailing white space. */
  function TrimEnd(s: string): (r: string)
    ensures |r| <= |s| && r == s[..|r|]
    ensures |r| > 0 ==> !IsJsWhiteSpace(r[|r| - 1])
    ensures forall i :: |r| <= i < |s| ==> IsJsWhiteSpace(s[i])
    decreases |s|
  {
    if |s| > 0 && IsJsWhiteSpace(s[|s| - 1]) then TrimEnd(s[..|s| - 1]) else s
  }

  /** `s.trim()`. */
  function Trim(s: string): string
  {
    TrimEnd(TrimStart(s))
  }

  /** `r` is the slice `s[i..j]` of `s`, and everything in front of `i` and behind `j` is white space. */
  predicate IsInnerSlice(s: string, r: string, i: int, j: int)
  {
    && 0 <= i <= j <= |s| && r == s[i..j]
    && (forall m :: 0 <= m < i ==> IsJsWhiteSpace(s[m]))
    && (forall m :: j <= m < |s| ==> IsJsWhiteSpace(s[m]))
  }

  /** `Trim(s)` is a contiguous piece of `s` with no white space at either end, and everything
      dropped on either side of it is white space. */
  lemma TrimIsInnerSlice(s: string)
    ensures exists i, j :: IsInnerSlice(s, Trim(s), i, j)
    ensures |Trim(s)| > 0 ==> !IsJsWhiteSpace(Trim(s)[0]) && !IsJsWhiteSpace(Trim(s)[|Trim(s)| - 1])
  {
    InnerSliceOfSuffix(s, TrimStart(s), Trim(s), |s| - |TrimStart(s)|);
    if |Trim(s)| > 0 {
      assert Trim(s)[0] == TrimStart(s)[0];
    }
  }

  /** Dropping white space `s[..k]` in front and then white space behind leaves an inner slice. */
  lemma InnerSliceOfSuffix(s: string, t: string, r: string, k: int)
    requires 0 <= k <= |s| && t == s[k..] && forall m :: 0 <= m < k ==> IsJsWhiteSpace(s[m])
    requires |r| <= |t| && r == t[..|r|] && forall m :: |r| <= m < |t| ==> IsJsWhiteSpace(t[m])
    ensures IsInnerSlice(s, r, k, k + |r|)
  {
    assert r == s[k..][..|r|];
    forall m | k + |r| <= m < |s| ensures IsJsWhiteSpace(s[m]) {
      assert s[m] == t[m - k];
    }
  }

  // ---------------------------------------------------------------- parseInt

  /** The longest prefix of `s` made of decimal digits. */
  function LeadingDigits(s: string): (d: string)
    ensures |d| <= |s| && d == s[..|d|] && AllDigits(d)
    ensures |d| < |s| ==> !IsDigit(s[|d|])
    decreases |s|
  {
    if |s| > 0 && IsDigit(s[0]) then
      var rest := LeadingDigits(s[1..]);
      assert [s[0]] + rest == s[..1 + |rest|];
      [s[0]] + rest
    else ""
  }

  /** `parseInt(s, 10)`: skip leading white space, take an optional sign, then the longest run of
      decimal digits; `None` stands for NaN, when there is no digit at all. The precision loss of
      very long digit strings is not modelled: the value is exact. */
  function ParseInt(s: string): Option<int>
  {
    var t := TrimStart(s);
    var negative := |t| > 0 && t[0] == '-';
    var unsigned := if |t| > 0 && (t[0] == '-' || t[0] == '+') then t[1..] else t;
    var digits := LeadingDigits(unsigned);
    if digits == [] then None
    else
      var magnitude: int := DecimalValue(digits);
      Some(if negative then -magnitude else magnitude)
  }

  /** On a digit-only string `parseInt` returns the string's decimal value. */
  lemma ParseIntOfDigits(s: string)
    requires IsDigitString(s)
    ensures ParseInt(s) == Some(DecimalValue(s))
  {
    assert !IsJsWhiteSpace(s[0]);
    assert TrimStart(s) == s;
    assert LeadingDigits(s) == s;
  }

  /** `parseInt` inverts the decimal rendering of every integer. */
  lemma ParseIntOfDecimal(i: int)
    ensures ParseInt(IntToDecimal(i)) == Some(i)
  {
    if i >= 0 {
      ParseIntOfDigits(IntToDecimal(i));
    } else {
      var d := NatToDecimal(-i);
      var s := "-" + d;
      assert IntToDecimal(i) == s;
      assert !IsJsWhiteSpace(s[0]);
      assert TrimStart(s) == s;
      assert s[1..] == d;
      assert LeadingDigits(d) == d;
    }
  }

  // ---------------------------------------------------------------- split and join

  /** The index of the first `c` in `s`, or `|s|` when there is none. */
  function FirstIndex(s: string, c: char): (i: nat)
    ensures i <= |s|
    ensures i < |s| ==> s[i] == c
    ensures forall j :: 0 <= j < i ==> s[j] != c
    decreases |s|
  {
    if |s| == 0 then 0
    else if s[0] == c then 0
    else 1 + FirstIndex(s[1..], c)
  }

  /** `parts.join(sep)`. */
  function Join(parts: seq<string>, sep: char): string
    requires |parts| > 0
    decreases |parts|
  {
    if |parts| == 1 then parts[0] else parts[0] + [sep] + Join(parts[1..], sep)
  }

  /** `s.split(sep)` for a one-character separator: the maximal `sep`-free pieces, in order;
      a string without `sep` (the empty string included) is one piece. */
  function Split(s: string, sep: char): (parts: seq<string>)
    ensures |parts| > 0
    ensures Join(parts, sep) == s
    ensures forall i :: 0 <= i < |parts| ==> sep !in parts[i]
    decreases |s|
  {
    var i := FirstIndex(s, sep);
    if i == |s| then
      assert s[..i] == s;
      [s]
    else
      var rest := Split(s[i + 1..], sep);
      var parts := [s[..i]] + rest;
      assert parts[1..] == rest;
      assert s == s[..i] + [sep] + s[i + 1..];
      parts
  }

  /** The first piece of `s.split(sep)` is the text in front of the first `sep`. */
  lemma SplitFirstPart(s: string, sep: char)
    ensures Split(s, sep)[0] == s[..FirstIndex(s, sep)]
  {
  }

  /** A string with no separator in it is a single piece. */
  lemma SplitWithout(a: string, sep: char)
    requires sep !in a
    ensures Split(a, sep) == [a]
  {
    assert FirstIndex(a, sep) == |a|;
  }

  /** A `sep`-free piece in front of a separator comes off as the first part. */
  lemma SplitCons(a: string, sep: char, b: string)
    requires sep !in a
    ensures Split(a + [sep] + b, sep) == [a] + Split(b, sep)
  {
    var s := a + [sep] + b;
    var i := FirstIndex(s, sep);
    assert s[|a|] == sep;
    assert forall j :: 0 <= j < |a| ==> s[j] == a[j];
    assert i == |a|;
    assert s[..i] == a;
    assert s[i + 1..] == b;
  }

  /** `split` inverts `join` on `sep`-free parts. */
  lemma {:induction false} SplitJoin(parts: seq<string>, sep: char)
    requires |parts| > 0
    requires forall i :: 0 <= i < |parts| ==> sep !in parts[i]
    ensures Split(Join(parts, sep), sep) == parts
    decreases |parts|
  {
    if |parts| == 1 {
      SplitWithout(parts[0], sep);
    } else {
      assert sep !in parts[0];
      SplitCons(parts[0], sep, Join(parts[1..], sep));
      assert forall i :: 0 <= i < |parts[1..]| ==> sep !in parts[1..][i] by {
        forall i | 0 <= i < |parts[1..]| ensures sep !in parts[1..][i] {
          assert parts[1..][i] == parts[i + 1];
        }
      }
      SplitJoin(parts[1..], sep);
      assert [parts[0]] + parts[1..] == parts;
    }
  }

  /** Three `sep`-free pieces joined by `sep` split back into themselves. */
  lemma SplitThree(a: string, b: string, c: string, sep: char)
    requires sep !in a && sep !in b && sep !in c
    ensures Split(a + [sep] + b + [sep] + c, sep) == [a, b, c]
  {
    assert Join([a, b, c], sep) == a + [sep] + b + [sep] + c by {
      assert [a, b, c][1..] == [b, c];
      assert [b, c][1..] == [c];
      assert Join([b, c], sep) == b + [sep] + c;
      assert Join([a, b, c], sep) == a + [sep] + (b + [sep] + c);
    }
    SplitJoin([a, b, c], sep);
  }

  // ---------------------------------------------------------------- case-insensitive search

  /** Case folding of ASCII letters. For an ASCII pattern this is what a regular expression with
      the `i` flag (and no `u` flag) compares: no other character canonicalises to an ASCII letter. */
  function AsciiLower(c: char): char
  {
    if 'A' <= c <= 'Z' then (c as int + 32) as char else c
  }

  /** `w` occurs in `s` at position `i`, ignoring ASCII case. */
  predicate MatchesAt(s: string, w: string, i: nat)
    requires i + |w| <= |s|
  {
    forall k :: 0 <= k < |w| ==> AsciiLower(s[i + k]) == AsciiLower(w[k])
  }

  /** Whether `w` occurs in `s` at some position at or after `from`, ignoring ASCII case. */
  function SearchFrom(s: string, w: string, from: nat): (found: bool)
    ensures found <==> exists i: nat :: from <= i && i + |w| <= |s| && MatchesAt(s, w, i)
    decreases |s| - from
  {
    if from + |w| > |s| then false
    else MatchesAt(s, w, from) || SearchFrom(s, w, from + 1)
  }

  /** `/w/i.test(s)` for an ASCII word `w`. */
  function ContainsIgnoringCase(s: string, w: string): (found: bool)
    ensures found <==> exists i: nat :: i + |w| <= |s| && MatchesAt(s, w, i)
  {
    SearchFrom(s, w, 0)
  }
}
