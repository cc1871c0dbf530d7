/** URL building as the handlers do it: `encodeURIComponent` on values and
    `&name=value` pairs appended to a base URL, plus the reading of such a
    query string back into its pairs. */
module Url {
  import opened JsValues
  import opened JsStrings
  import opened Lists

  /** The characters `encodeURIComponent` leaves as they are. */
  predicate IsUnreserved(c: char) {
    || ('A' <= c <= 'Z') || ('a' <= c <= 'z') || ('0' <= c <= '9')
    || c == '-' || c == '_' || c == '.' || c == '!' || c == '~'
    || c == '*' || c == '\'' || c == '(' || c == ')'
  }

  function HexDigit(d: nat): (c: char)
    requires d < 16
    ensures IsUnreserved(c)
  {
    if d < 10 then (48 + d) as char else (55 + d) as char
  }

  /** The UTF-8 encoding of a code point (section 3 of RFC 3629). */
  function Utf8Bytes(cp: nat): (bs: seq<nat>)
    requires cp <= 0x10FFFF
    ensures 1 <= |bs| <= 4
    ensures forall i :: 0 <= i < |bs| ==> bs[i] < 256
    ensures cp < 0x80 <==> |bs| == 1
  {
    if cp < 0x80 then [cp]
    else if cp < 0x800 then [0xC0 + cp / 64, 0x80 + cp % 64]
    else if cp < 0x10000 then [0xE0 + cp / 4096, 0x80 + (cp / 64) % 64, 0x80 + cp % 64]
    else [0xF0 + cp / 262144, 0x80 + (cp / 4096) % 64, 0x80 + (cp / 64) % 64, 0x80 + cp % 64]
  }

  /** `%XX` with upper-case hex digits for each byte. */
  function PercentBytes(bs: seq<nat>): (r: string)
    requires forall i :: 0 <= i < |bs| ==> bs[i] < 256
    ensures |r| == 3 * |bs|
    ensures forall i :: 0 <= i < |r| ==> r[i] == '%' || IsUnreserved(r[i])
  {
    if bs == [] then ""
    else ['%', HexDigit(bs[0] / 16), HexDigit(bs[0] % 16)] + PercentBytes(bs[1..])
  }

  function EncodeChar(c: char): (r: string)
    ensures 1 <= |r|
    ensures forall i :: 0 <= i < |r| ==> r[i] == '%' || IsUnreserved(r[i])
  {
    if IsUnreserved(c) then [c] else PercentBytes(Utf8Bytes(c as int))
  }

  /** `encodeURIComponent(s)`. The result is made of unreserved characters
      and `%` only, so it can never contain `&`, `=`, `?` or `#`, and it is
      empty exactly when `s` is. */
  function EncodeURIComponent(s: string): (r: string)
    ensures |s| <= |r|
    ensures forall i :: 0 <= i < |r| ==> r[i] == '%' || IsUnreserved(r[i])
  {
    if s == [] then "" else EncodeChar(s[0]) + EncodeURIComponent(s[1..])
  }

  /** A value made of unreserved characters is sent as it is. */
  lemma {:induction false} EncodeUnreserved(s: string)
    requires forall i :: 0 <= i < |s| ==> IsUnreserved(s[i])
    ensures EncodeURIComponent(s) == s
  {
    if s != [] {
      EncodeUnreserved(s[1..]);
      assert s == [s[0]] + s[1..];
    }
  }

  /** A character outside the unreserved set becomes one to four `%XX`
      escapes, one per UTF-8 byte. */
  lemma EncodeReservedChar(c: char)
    requires !IsUnreserved(c)
    ensures EncodeURIComponent([c]) == PercentBytes(Utf8Bytes(c as int))
    ensures c as int < 0x80 ==> |EncodeURIComponent([c])| == 3
  {
    assert [c][1..] == [];
  }

  /** No separator of a query string, so a value cannot add a parameter. */
  predicate NoDelimiter(s: string) {
    '&' !in s && '=' !in s
  }

  lemma EncodedHasNoDelimiter(s: string)
    ensures NoDelimiter(EncodeURIComponent(s))
  {
    var r := EncodeURIComponent(s);
    assert forall i :: 0 <= i < |r| ==> r[i] != '&' && r[i] != '=';
  }

  // ----- query strings -----

  type Param = (string, string)

  /** `&name=value`. */
  function ParamText(p: Param): string {
    "&" + p.0 + "=" + p.1
  }

  /** The text that appending `&name=value` for each pair in turn produces. */
  function Query(ps: seq<Param>): string {
    if ps == [] then "" else Query(ps[..|ps| - 1]) + ParamText(ps[|ps| - 1])
  }

  lemma QueryAppend(ps: seq<Param>, p: Param)
    ensures Query(ps + [p]) == Query(ps) + ParamText(p)
  {
    assert (ps + [p])[..|ps|] == ps;
  }

  /** Appending the pairs of `qs` after those of `ps`. */
  lemma {:induction false} QueryConcat(ps: seq<Param>, qs: seq<Param>)
    ensures Query(ps + qs) == Query(ps) + Query(qs)
    decreases |qs|
  {
    if qs == [] {
      assert ps + qs == ps;
    } else {
      var init := qs[..|qs| - 1];
      var last := qs[|qs| - 1];
      assert ps + qs == (ps + init) + [last];
      assert qs == init + [last];
      QueryConcat(ps, init);
      QueryAppend(ps + init, last);
      QueryAppend(init, last);
    }
  }

  lemma QuerySingle(p: Param)
    ensures Query([p]) == ParamText(p)
  {
    QueryAppend([], p);
    assert [] + [p] == [p];
  }

  /** The query of two fixed pairs, some optional ones and a last pair. */
  lemma QueryPieces(a: Param, b: Param, g: seq<Param>, y: seq<Param>, z: Param)
    ensures Query([a, b] + g + y + [z])
            == ParamText(a) + ParamText(b) + Query(g) + Query(y) + ParamText(z)
  {
    QuerySingle(a);
    QueryAppend([a], b);
    assert [a] + [b] == [a, b];
    QuerySingle(z);
    QueryFour([a, b], g, y, [z]);
  }

  lemma WellFormedConcat(ps: seq<Param>, qs: seq<Param>)
    requires WellFormed(ps) && WellFormed(qs)
    ensures WellFormed(ps + qs)
  {
    forall i | 0 <= i < |ps + qs| ensures NoDelimiter((ps + qs)[i].0) && '&' !in (ps + qs)[i].1 {
      if i < |ps| {
        assert (ps + qs)[i] == ps[i];
      } else {
        assert (ps + qs)[i] == qs[i - |ps|];
      }
    }
  }

  /** Four groups of pairs appended one after another. */
  lemma QueryFour(a: seq<Param>, b: seq<Param>, c: seq<Param>, d: seq<Param>)
    ensures Query(a + b + c + d) == Query(a) + Query(b) + Query(c) + Query(d)
  {
    QueryConcat(a, b);
    QueryConcat(a + b, c);
    QueryConcat(a + b + c, d);
  }

  lemma WellFormedFour(a: seq<Param>, b: seq<Param>, c: seq<Param>, d: seq<Param>)
    requires WellFormed(a) && WellFormed(b) && WellFormed(c) && WellFormed(d)
    ensures WellFormed(a + b + c + d)
  {
    WellFormedConcat(a, b);
    WellFormedConcat(a + b, c);
    WellFormedConcat(a + b + c, d);
  }

  /** `URLSearchParams.get(name)`: the value of the first pair so named. */
  function Lookup(ps: seq<Param>, name: string): (r: Option<string>)
    ensures r.None? <==> forall i :: 0 <= i < |ps| ==> ps[i].0 != name
  {
    if ps == [] then None
    else if ps[0].0 == name then Some(ps[0].1)
    else Lookup(ps[1..], name)
  }

  /** `Lookup` in two lists of pairs: the first list is searched first. */
  lemma {:induction false} LookupConcat(ps: seq<Param>, qs: seq<Param>, name: string)
    ensures Lookup(ps + qs, name) == if Lookup(ps, name).Some? then Lookup(ps, name) else Lookup(qs, name)
  {
    if ps == [] {
      assert ps + qs == qs;
    } else {
      assert (ps + qs)[1..] == ps[1..] + qs;
      LookupConcat(ps[1..], qs, name);
    }
  }

  /** `Lookup` in four groups of pairs: the first group naming it wins. */
  lemma LookupFour(a: seq<Param>, b: seq<Param>, c: seq<Param>, d: seq<Param>, name: string)
    ensures Lookup(a + b + c + d, name)
            == if Lookup(a, name).Some? then Lookup(a, name)
               else if Lookup(b, name).Some? then Lookup(b, name)
               else if Lookup(c, name).Some? then Lookup(c, name)
               else Lookup(d, name)
  {
    LookupConcat(a + b + c, d, name);
    LookupConcat(a + b, c, name);
    LookupConcat(a, b, name);
  }

  /** The value `Lookup` finds is that of the first pair with the name. */
  lemma {:induction false} LookupFirst(ps: seq<Param>, name: string, k: nat)
    requires k < |ps| && ps[k].0 == name
    requires forall j :: 0 <= j < k ==> ps[j].0 != name
    ensures Lookup(ps, name) == Some(ps[k].1)
  {
    if k > 0 {
      LookupFirst(ps[1..], name, k - 1);
    }
  }

  /** A `name=value` piece read back: the name stops at the first `=`. */
  function ReadPair(piece: string): Param {
    var parts := Split(piece, '=');
    if |parts| == 1 then (piece, "") else (parts[0], Join(parts[1..], "="))
  }

  /** The pairs of a query text that starts with `&`. */
  function ParseQuery(q: string): seq<Param> {
    Map(ReadPair, Split(q, '&')[1..])
  }

  function PairText(p: Param): string {
    p.0 + "=" + p.1
  }

  predicate WellFormed(ps: seq<Param>) {
    forall i :: 0 <= i < |ps| ==> NoDelimiter(ps[i].0) && '&' !in ps[i].1
  }

  lemma {:induction false} JoinSnoc(parts: seq<string>, x: string, sep: string)
    requires 1 <= |parts|
    ensures Join(parts + [x], sep) == Join(parts, sep) + sep + x
  {
    if |parts| == 1 {
      assert (parts + [x])[1..] == [x];
    } else {
      assert (parts + [x])[1..] == parts[1..] + [x];
      JoinSnoc(parts[1..], x, sep);
    }
  }

  lemma ParamTextIsPairText(p: Param)
    ensures ParamText(p) == "&" + PairText(p)
  {
  }

  lemma {:induction false} QueryIsJoin(ps: seq<Param>)
    ensures Query(ps) == Join([""] + Map(PairText, ps), "&")
  {
    if ps != [] {
      var init, last := ps[..|ps| - 1], ps[|ps| - 1];
      var front := [""] + Map(PairText, init);
      QueryIsJoin(init);
      assert ps == init + [last];
      MapSnoc(PairText, init, last);
      assert [""] + Map(PairText, ps) == front + [PairText(last)];
      JoinSnoc(front, PairText(last), "&");
      ParamTextIsPairText(last);
    }
  }

  lemma ReadPairText(p: Param)
    requires '=' !in p.0
    ensures ReadPair(PairText(p)) == p
  {
    var piece := PairText(p);
    JoinSplit(p.1, '=');
    var tail := Split(p.1, '=');
    assert piece == p.0 + ['='] + p.1;
    SplitAfterPiece(p.0, '=', p.1);
    assert Split(piece, '=') == [p.0] + tail;
    assert (([p.0] + tail)[1..]) == tail;
  }

  /** Reading back a query built from well-formed pairs gives exactly those
      pairs, in order: what the handlers append is what the server reads. */
  lemma ParseQueryOfQuery(ps: seq<Param>)
    requires WellFormed(ps)
    ensures ParseQuery(Query(ps)) == ps
  {
    QueryIsJoin(ps);
    var pieces := [""] + Map(PairText, ps);
    forall i | 0 <= i < |pieces| ensures '&' !in pieces[i] {
      if i > 0 {
        assert pieces[i] == ps[i - 1].0 + "=" + ps[i - 1].1;
      }
    }
    SplitJoin(pieces, '&');
    assert Split(Query(ps), '&')[1..] == Map(PairText, ps);
    forall i | 0 <= i < |ps| ensures ReadPair(PairText(ps[i])) == ps[i] {
      ReadPairText(ps[i]);
    }
  }
}
