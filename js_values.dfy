/** JavaScript values the application compares, prints and parses:
    optional values, movie ids of mixed type, integer-to-string
    conversion and the global `parseInt`. */
module JsValues {

  /** A value that may be `undefined` or `null`. */
  datatype Option<+T> = None | Some(value: T) {
    function GetOr(default: T): T {
      match this
      case Some(v) => v
      case None => default
    }
  }

  /** JavaScript truthiness of an optional string: present and not empty. */
  predicate Truthy(s: Option<string>) {
    s.Some? && s.value != ""
  }

  /** A movie id. TMDb sends numbers and the server stores numbers, but the
      client also builds ids as strings (`String(movie.id)`, the banner's
      `'fallback'` entry), so both kinds are kept apart. */
  datatype JsId = Num(n: int) | Str(s: string)

  /** `a === b` on two ids: the same type and the same value. */
  predicate StrictEquals(a: JsId, b: JsId)
    ensures StrictEquals(a, b) <==> a == b
  {
    match (a, b)
    case (Num(x), Num(y)) => x == y
    case (Str(x), Str(y)) => x == y
    case _ => false
  }

  predicate IsDecimalDigit(c: char) {
    '0' <= c <= '9'
  }

  function DigitChar(d: nat): (c: char)
    requires d < 10
    ensures IsDecimalDigit(c)
  {
    (48 + d) as char
  }

  /** Decimal digits of `n`, most significant first, no leading zero. */
  function NatToString(n: nat): (s: string)
    ensures 1 <= |s|
    ensures forall i :: 0 <= i < |s| ==> IsDecimalDigit(s[i])
    ensures s[0] == '0' ==> n == 0
  {
    if n < 10 then [DigitChar(n)] else NatToString(n / 10) + [DigitChar(n % 10)]
  }

  /** `String(n)` for an integral number below 10^21 in magnitude. */
  function IntToString(n: int): (s: string)
    ensures 1 <= |s|
    ensures s[0] == '-' <==> n < 0
  {
    if n < 0 then "-" + NatToString(-n) else NatToString(n)
  }

  /** `String(id)`. */
  function ToJsString(id: JsId): string {
    match id
    case Num(n) => IntToString(n)
    case Str(s) => s
  }

  // ---------------------------------------------------------------
  // parseInt(s) with no radix argument (section 19.2.5 of ECMA-262)
  // ---------------------------------------------------------------

  /** The ECMAScript WhiteSpace and LineTerminator code points. */
  predicate IsJsWhitespace(c: char) {
    || c == '\U{0009}' || c == '\U{000A}' || c == '\U{000B}' || c == '\U{000C}'
    || c == '\U{000D}' || c == '\U{0020}' || c == '\U{00A0}' || c == '\U{1680}'
    || ('\U{2000}' <= c <= '\U{200A}')
    || c == '\U{2028}' || c == '\U{2029}' || c == '\U{202F}' || c == '\U{205F}'
    || c == '\U{3000}' || c == '\U{FEFF}'
  }

  /** `s` without its leading white space. */
  function TrimStart(s: string): (r: string)
    ensures |r| <= |s| && r == s[|s| - |r|..]
    ensures forall i :: 0 <= i < |s| - |r| ==> IsJsWhitespace(s[i])
    ensures r != [] ==> !IsJsWhitespace(r[0])
  {
    if s != [] && IsJsWhitespace(s[0]) then TrimStart(s[1..]) else s
  }

  /** The value of a letter or digit as a digit in base 36. */
  function DigitValue(c: char): (d: nat)
    ensures IsDecimalDigit(c) ==> d == c as int - 48
  {
    if '0' <= c <= '9' then c as int - 48
    else if 'a' <= c <= 'z' then c as int - 87
    else if 'A' <= c <= 'Z' then c as int - 55
    else 36
  }

  predicate IsRadixDigit(c: char, radix: nat) {
    DigitValue(c) < radix
  }

  /** Length of the longest prefix of `s` made of digits of `radix`. */
  function DigitRun(s: string, radix: nat): (k: nat)
    ensures k <= |s|
    ensures forall i :: 0 <= i < k ==> IsRadixDigit(s[i], radix)
    ensures k < |s| ==> !IsRadixDigit(s[k], radix)
  {
    if s != [] && IsRadixDigit(s[0], radix) then 1 + DigitRun(s[1..], radix) else 0
  }

  /** The number that the digit string `s` denotes in base `radix`. */
  function DigitsValue(s: string, radix: nat): nat {
    if s == [] then 0
    else DigitsValue(s[..|s| - 1], radix) * radix + DigitValue(s[|s| - 1])
  }

  /** The digits after the sign: an optional `0x`/`0X` prefix (which
      switches to base 16), then the longest run of digits; `None` when there
      is no digit at all. */
  function ParseMagnitude(u: string): Option<nat> {
    var hex := |u| >= 2 && u[0] == '0' && (u[1] == 'x' || u[1] == 'X');
    var radix := if hex then 16 else 10;
    var v := if hex then u[2..] else u;
    var k := DigitRun(v, radix);
    if k == 0 then None else Some(DigitsValue(v[..k], radix))
  }

  /** `parseInt(s)`: skip leading white space, read an optional sign, then
      the magnitude; `None` stands for `NaN`. */
  function ParseInt(s: string): Option<int> {
    var t := TrimStart(s);
    var negative := t != [] && t[0] == '-';
    var u := if t != [] && (t[0] == '-' || t[0] == '+') then t[1..] else t;
    match ParseMagnitude(u)
    case None => None
    case Some(m) => Some(if negative then -(m as int) else m)
  }

  lemma {:induction false} DigitsValueOfNatToString(n: nat)
    ensures DigitsValue(NatToString(n), 10) == n
  {
    var s := NatToString(n);
    if n < 10 {
      assert s[..|s| - 1] == [];
    } else {
      DigitsValueOfNatToString(n / 10);
      assert s[..|s| - 1] == NatToString(n / 10);
    }
  }

  lemma {:induction false} DigitRunOfDecimal(s: string)
    requires forall i :: 0 <= i < |s| ==> IsDecimalDigit(s[i])
    ensures DigitRun(s, 10) == |s|
  {
    if s != [] {
      DigitRunOfDecimal(s[1..]);
    }
  }

  /** A string of decimal digits without a leading zero (or `0` itself)
      is read whole, in base 10. */
  lemma ParseDecimalMagnitude(d: string)
    requires 1 <= |d| && forall i :: 0 <= i < |d| ==> IsDecimalDigit(d[i])
    requires |d| >= 2 ==> d[0] != '0'
    ensures ParseMagnitude(d) == Some(DigitsValue(d, 10))
  {
    DigitRunOfDecimal(d);
    assert d[..|d|] == d;
  }

  /** A digit string parses to its value. */
  lemma ParseUnsignedDigits(d: string)
    requires 1 <= |d| && IsDecimalDigit(d[0])
    ensures ParseInt(d) == match ParseMagnitude(d) case None => None case Some(m) => Some(m as int)
  {
    assert !IsJsWhitespace(d[0]);
    assert TrimStart(d) == d;
  }

  /** A digit string after a minus sign parses to the negated value. */
  lemma ParseNegatedDigits(d: string)
    requires 1 <= |d| && IsDecimalDigit(d[0])
    ensures ParseInt("-" + d) == match ParseMagnitude(d) case None => None case Some(m) => Some(-(m as int))
  {
    var s := "-" + d;
    assert !IsJsWhitespace(s[0]);
    assert TrimStart(s) == s;
    assert s[1..] == d;
  }

  /** `parseInt(String(n)) === n` for every integral `n`: printing an id and
      parsing it back loses nothing. */
  lemma ParseIntRoundTrip(n: int)
    ensures ParseInt(IntToString(n)) == Some(n)
  {
    var m: nat := if n < 0 then -n else n;
    var d := NatToString(m);
    if m == 0 {
      assert d == [DigitChar(0)];
    }
    ParseDecimalMagnitude(d);
    if n < 0 {
      ParseNegatedDigits(d);
    } else {
      ParseUnsignedDigits(d);
    }
    DigitsValueOfNatToString(m);
  }

  /** Two integers print the same only when they are equal. */
  lemma IntToStringInjective(a: int, b: int)
    ensures IntToString(a) == IntToString(b) <==> a == b
  {
    ParseIntRoundTrip(a);
    ParseIntRoundTrip(b);
  }

  /** `String(x) === String(y)` relates more ids than `x === y` does: it is
      implied by it, and among numbers it coincides with it. */
  lemma StringEqualityOfIds(a: JsId, b: JsId)
    ensures StrictEquals(a, b) ==> ToJsString(a) == ToJsString(b)
    ensures a.Num? && b.Num? ==> (ToJsString(a) == ToJsString(b) <==> StrictEquals(a, b))
  {
    if a.Num? && b.Num? {
      IntToStringInjective(a.n, b.n);
    }
  }

  /** A number and a string can print alike yet never be `===`. */
  lemma MixedIdsPrintAlike()
    ensures ToJsString(Num(550)) == ToJsString(Str("550"))
    ensures !StrictEquals(Num(550), Str("550"))
  {
    assert NatToString(550) == NatToString(55) + ['0'];
    assert NatToString(55) == NatToString(5) + ['5'];
  }
}
