/** How a server reads a query value back: `decodeURIComponent` as
    ECMA-262 defines it, which turns each run of `%XX` escapes holding a
    well-formed UTF-8 sequence into its character, and the query-string
    parser's wrapper around it, which first reads `+` as a space and keeps
    the text as it is when decoding fails. */
module QueryDecode {
  import opened JsValues
  import opened Url

  /** The value of a hex digit, in either case. */
  function HexValue(c: char): (r: Option<nat>)
    ensures r.Some? ==> r.value < 16
  {
    if '0' <= c <= '9' then Some(c as int - 48)
    else if 'A' <= c <= 'F' then Some(c as int - 55)
    else if 'a' <= c <= 'f' then Some(c as int - 87)
    else None
  }

  lemma HexValueOfDigit(d: nat)
    requires d < 16
    ensures HexValue(HexDigit(d)) == Some(d)
  {
  }

  /** The bytes of the first `n` escapes of `s`, or `None` when `s` does not
      start with `n` escapes `%XX`. */
  function ReadEscapes(s: string, n: nat): (r: Option<seq<nat>>)
    ensures r.Some? ==> |r.value| == n && 3 * n <= |s|
    ensures r.Some? ==> forall i :: 0 <= i < n ==> r.value[i] < 256
  {
    if n == 0 then Some([])
    else if |s| < 3 || s[0] != '%' || HexValue(s[1]).None? || HexValue(s[2]).None? then None
    else
      match ReadEscapes(s[3..], n - 1)
      case None => None
      case Some(bs) => Some([16 * HexValue(s[1]).value + HexValue(s[2]).value] + bs)
  }

  /** The length of the UTF-8 sequence a lead byte starts, or 0 when the
      byte cannot start one. */
  function SequenceLength(lead: nat): (n: nat)
    ensures n <= 4
  {
    if lead < 0x80 then 1
    else if 0xC0 <= lead < 0xE0 then 2
    else if 0xE0 <= lead < 0xF0 then 3
    else if 0xF0 <= lead < 0xF8 then 4
    else 0
  }

  predicate IsContinuation(b: nat) {
    0x80 <= b < 0xC0
  }

  /** The character a UTF-8 sequence encodes, or `None` for a malformed
      one: a wrong lead or continuation byte, an overlong form, a surrogate
      or a value past U+10FFFF. */
  function Utf8Decode(bs: seq<nat>): Option<char>
    requires 1 <= |bs| <= 4
  {
    if SequenceLength(bs[0]) != |bs| then None
    else if !(forall i :: 1 <= i < |bs| ==> IsContinuation(bs[i])) then None
    else
      var cp :=
        if |bs| == 1 then bs[0]
        else if |bs| == 2 then (bs[0] - 0xC0) * 64 + (bs[1] - 0x80)
        else if |bs| == 3 then (bs[0] - 0xE0) * 4096 + (bs[1] - 0x80) * 64 + (bs[2] - 0x80)
        else (bs[0] - 0xF0) * 262144 + (bs[1] - 0x80) * 4096 + (bs[2] - 0x80) * 64 + (bs[3] - 0x80);
      var least := if |bs| == 1 then 0 else if |bs| == 2 then 0x80 else if |bs| == 3 then 0x800 else 0x10000;
      if cp < least || (0xD800 <= cp < 0xE000) || cp > 0x10FFFF then None
      else Some(cp as char)
  }

  /** One decoded character at the head of `s` (which starts with `%`) and
      the number of characters its escapes take. */
  function DecodeEscape(s: string): (r: Option<(char, nat)>)
    ensures r.Some? ==> 3 <= r.value.1 <= |s|
  {
    match ReadEscapes(s, 1)
    case None => None
    case Some(lead) =>
      var n := SequenceLength(lead[0]);
      if n == 0 then None
      else
        match ReadEscapes(s, n)
        case None => None
        case Some(bs) =>
          match Utf8Decode(bs)
          case None => None
          case Some(c) => Some((c, 3 * n))
  }

  /** `decodeURIComponent(s)`, or `None` where it throws a URIError. */
  function DecodeURIComponent(s: string): (r: Option<string>)
    decreases |s|
  {
    if s == [] then Some("")
    else if s[0] == '%' then
      match DecodeEscape(s)
      case None => None
      case Some((c, k)) =>
        match DecodeURIComponent(s[k..])
        case None => None
        case Some(rest) => Some([c] + rest)
    else
      match DecodeURIComponent(s[1..])
      case None => None
      case Some(rest) => Some([s[0]] + rest)
  }

  /** `s` with every `+` read as a space. */
  function PlusToSpace(s: string): (r: string)
    ensures |r| == |s|
    ensures forall i :: 0 <= i < |s| ==> r[i] == if s[i] == '+' then ' ' else s[i]
  {
    if s == [] then "" else [if s[0] == '+' then ' ' else s[0]] + PlusToSpace(s[1..])
  }

  /** A query value as the query-string parser decodes it: `+` is a space,
      and text that `decodeURIComponent` refuses is kept undecoded. */
  function QueryValue(s: string): string {
    var spaced := PlusToSpace(s);
    match DecodeURIComponent(spaced)
    case Some(d) => d
    case None => spaced
  }

  // ----- decoding undoes encoding -----

  /** The escapes `PercentBytes` writes read back as the same bytes. */
  lemma {:induction false} ReadPercentBytes(bs: seq<nat>, rest: string)
    requires forall i :: 0 <= i < |bs| ==> bs[i] < 256
    ensures ReadEscapes(PercentBytes(bs) + rest, |bs|) == Some(bs)
  {
    if bs != [] {
      var s := PercentBytes(bs) + rest;
      var b := bs[0];
      HexValueOfDigit(b / 16);
      HexValueOfDigit(b % 16);
      assert s[0] == '%' && s[1] == HexDigit(b / 16) && s[2] == HexDigit(b % 16);
      assert s[3..] == PercentBytes(bs[1..]) + rest;
      ReadPercentBytes(bs[1..], rest);
      assert bs == [b] + bs[1..];
    }
  }

  /** The first escape alone reads back as the lead byte. */
  lemma ReadLeadByte(bs: seq<nat>, rest: string)
    requires 1 <= |bs| && forall i :: 0 <= i < |bs| ==> bs[i] < 256
    ensures ReadEscapes(PercentBytes(bs) + rest, 1) == Some([bs[0]])
  {
    var tail := PercentBytes(bs[1..]) + rest;
    assert PercentBytes([bs[0]]) == PercentBytes(bs)[..3];
    assert PercentBytes(bs) + rest == PercentBytes([bs[0]]) + tail;
    ReadPercentBytes([bs[0]], tail);
  }

  lemma Utf8TwoBytes(cp: nat)
    requires 0x80 <= cp < 0x800
    ensures var bs := Utf8Bytes(cp);
      |bs| == 2 && SequenceLength(bs[0]) == 2 && IsContinuation(bs[1])
      && (bs[0] - 0xC0) * 64 + (bs[1] - 0x80) == cp
  {
  }

  lemma Utf8ThreeBytes(cp: nat)
    requires 0x800 <= cp < 0x10000
    ensures var bs := Utf8Bytes(cp);
      |bs| == 3 && SequenceLength(bs[0]) == 3 && IsContinuation(bs[1]) && IsContinuation(bs[2])
      && (bs[0] - 0xE0) * 4096 + (bs[1] - 0x80) * 64 + (bs[2] - 0x80) == cp
  {
    var hi, mid := cp / 4096, (cp / 64) % 64;
    assert cp / 64 == hi * 64 + mid;
  }

  lemma Utf8FourBytes(cp: nat)
    requires 0x10000 <= cp <= 0x10FFFF
    ensures var bs := Utf8Bytes(cp);
      |bs| == 4 && SequenceLength(bs[0]) == 4
      && IsContinuation(bs[1]) && IsContinuation(bs[2]) && IsContinuation(bs[3])
      && (bs[0] - 0xF0) * 262144 + (bs[1] - 0x80) * 4096 + (bs[2] - 0x80) * 64 + (bs[3] - 0x80) == cp
  {
    var top, hi, mid := cp / 262144, (cp / 4096) % 64, (cp / 64) % 64;
    assert cp / 4096 == top * 64 + hi;
    assert cp / 64 == (cp / 4096) * 64 + mid;
  }

  /** UTF-8 decoding undoes UTF-8 encoding, and the lead byte announces the
      length of the sequence. */
  lemma Utf8RoundTrip(c: char)
    ensures SequenceLength(Utf8Bytes(c as int)[0]) == |Utf8Bytes(c as int)|
    ensures Utf8Decode(Utf8Bytes(c as int)) == Some(c)
  {
    var cp := c as int;
    if cp < 0x80 {
    } else if cp < 0x800 {
      Utf8TwoBytes(cp);
    } else if cp < 0x10000 {
      Utf8ThreeBytes(cp);
    } else {
      Utf8FourBytes(cp);
    }
  }

  /** An encoded character at the head of a string decodes to itself, and
      decoding goes on after it. */
  lemma DecodeEncodedChar(c: char, rest: string)
    ensures DecodeURIComponent(EncodeChar(c) + rest)
            == match DecodeURIComponent(rest)
               case None => None
               case Some(r) => Some([c] + r)
  {
    var s := EncodeChar(c) + rest;
    if IsUnreserved(c) {
      assert s[0] == c && s[1..] == rest;
    } else {
      var bs := Utf8Bytes(c as int);
      ReadLeadByte(bs, rest);
      ReadPercentBytes(bs, rest);
      Utf8RoundTrip(c);
      assert s[0] == '%';
      assert DecodeEscape(s) == Some((c, 3 * |bs|));
      assert s[3 * |bs|..] == rest;
    }
  }

  /** `decodeURIComponent(encodeURIComponent(s)) === s`. */
  lemma {:induction false} DecodeEncode(s: string)
    ensures DecodeURIComponent(EncodeURIComponent(s)) == Some(s)
  {
    if s != [] {
      DecodeEncode(s[1..]);
      DecodeEncodedChar(s[0], EncodeURIComponent(s[1..]));
      assert s == [s[0]] + s[1..];
    }
  }

  /** The query-string parser reads an encoded value back as the original:
      the encoding holds no `+` to be taken for a space. */
  lemma QueryValueOfEncoded(s: string)
    ensures QueryValue(EncodeURIComponent(s)) == s
  {
    var e := EncodeURIComponent(s);
    assert PlusToSpace(e) == e;
    DecodeEncode(s);
  }

  /** A truncated UTF-8 sequence is kept as it was written, and a `+` is
      read as a space. */
  lemma MalformedEscapeKept()
    ensures QueryValue("%E0%A4") == "%E0%A4"
    ensures QueryValue("a+b") == "a b"
  {
    var t := "%E0%A4";
    assert PlusToSpace(t) == t;
    assert ReadEscapes(t, 1) == Some([0xE0]) by {
      assert t[0] == '%' && t[1] == 'E' && t[2] == '0';
      assert HexValue('E') == Some(14) && HexValue('0') == Some(0);
      assert ReadEscapes(t[3..], 0) == Some([]);
      assert [16 * 14 + 0] + [] == [0xE0];
    }
    assert ReadEscapes(t, 3).None? by {
      assert ReadEscapes(t[3..], 2) == None by {
        assert t[3..][3..] == [];
      }
    }
    assert PlusToSpace("a+b") == "a b" by {
      assert "a+b"[1..] == "+b";
      assert "+b"[1..] == "b";
    }
    assert DecodeURIComponent("a b") == Some("a b") by {
      assert "a b"[1..] == " b";
      assert " b"[1..] == "b";
      assert "b"[1..] == "";
    }
  }
}
