/** The two ways the server reads a token from the `Authorization` header,
    whose expected form is `Bearer <token>` (section 2.1 of RFC 6750). */
module Tokens {
  import opened JsValues
  import opened JsStrings

  /** `header?.split(' ')[1]`: the second space-separated word, whatever
      the first one is. */
  function SecondWord(header: Option<string>): (r: Option<string>)
    ensures r.Some? ==> header.Some? && ' ' !in r.value
    ensures header.Some? ==> (r.Some? <==> ' ' in header.value)
  {
    match header
    case None => None
    case Some(h) =>
      SplitHasSecondPiece(h, ' ');
      var parts := Split(h, ' ');
      if |parts| > 1 then Some(parts[1]) else None
  }

  /** `header?.replace('Bearer ', '')`: the header without the first
      occurrence of `Bearer `, wherever it is. */
  function StripBearer(header: Option<string>): (r: Option<string>)
    ensures r.Some? <==> header.Some?
  {
    match header
    case None => None
    case Some(h) => Some(ReplaceFirst(h, "Bearer ", ""))
  }

  /** The header the client sends: `Bearer ${token}`. */
  function BearerHeader(token: string): string {
    "Bearer " + token
  }

  /** The second word of `<scheme> <rest>` is the first word of `rest`. */
  lemma SecondWordAfterScheme(scheme: string, rest: string)
    requires ' ' !in scheme
    ensures SecondWord(Some(scheme + " " + rest)) == Some(Split(rest, ' ')[0])
  {
    assert scheme + " " + rest == scheme + [' '] + rest;
    SplitAfterPiece(scheme, ' ', rest);
  }

  /** On a well-formed header whose token has no space both readings give
      the token. */
  lemma ReadingsAgreeOnBearer(token: string)
    requires ' ' !in token
    ensures SecondWord(Some(BearerHeader(token))) == Some(token)
    ensures StripBearer(Some(BearerHeader(token))) == Some(token)
  {
    SecondWordAfterScheme("Bearer", token);
    assert "Bearer" + " " + token == BearerHeader(token);
    SplitWithoutSeparator(token, ' ');
    ReplaceLeadingPattern("Bearer ", token, "");
    assert "" + token == token;
  }

  /** A header without `Bearer ` anywhere is taken whole as the token by the
      replace reading. */
  lemma StripWithoutBearer(h: string)
    requires forall j :: !OccursAt(h, "Bearer ", j)
    ensures StripBearer(Some(h)) == Some(h)
  {
    ReplaceAbsent(h, "Bearer ", "");
  }

  /** `Bearer ` cannot occur in a text without the letter `r`. */
  lemma NoBearerWithoutR(h: string)
    requires 'r' !in h
    ensures forall j :: !OccursAt(h, "Bearer ", j)
  {
    assert "Bearer "[3] == 'r';
    forall j ensures !OccursAt(h, "Bearer ", j) {
      if 0 <= j && j + 7 <= |h| {
        assert h[j..j + 7][3] == h[j + 3];
      }
    }
  }

  /** A token followed by more words: the split reading keeps the first
      word, the replace reading keeps them all. */
  lemma ReadingsDifferOnExtraWords()
    ensures SecondWord(Some("Bearer a b")) == Some("a")
    ensures StripBearer(Some("Bearer a b")) == Some("a b")
  {
    SecondWordAfterScheme("Bearer", "a b");
    assert "Bearer" + " " + "a b" == "Bearer a b";
    assert "a b" == "a" + [' '] + "b";
    SplitAfterPiece("a", ' ', "b");
    ReplaceLeadingPattern("Bearer ", "a b", "");
    assert "Bearer " + "a b" == "Bearer a b";
    assert "" + "a b" == "a b";
  }

  /** Another scheme: the split reading takes its credentials as the token,
      the replace reading the whole header. */
  lemma ReadingsDifferOnOtherScheme()
    ensures SecondWord(Some("Basic abc")) == Some("abc")
    ensures StripBearer(Some("Basic abc")) == Some("Basic abc")
  {
    SecondWordOfBasic();
    NoBearerWithoutR("Basic abc");
    StripWithoutBearer("Basic abc");
  }

  lemma SecondWordOfBasic()
    ensures SecondWord(Some("Basic abc")) == Some("abc")
  {
    SecondWordAfterScheme("Basic", "abc");
    assert "Basic" + " " + "abc" == "Basic abc";
    SplitWithoutSeparator("abc", ' ');
  }

  /** A bare token: the split reading finds none, the replace reading takes
      the header as it is. */
  lemma ReadingsDifferOnBareToken()
    ensures SecondWord(Some("abc")) == None
    ensures StripBearer(Some("abc")) == Some("abc")
  {
    StripWithoutBearer("abc");
  }
}
