/** The pure helpers of the movie page, frontend/src/components/MovieDetails.js:
    runtime text, trailer link, top cast, and which details are shown. */
module MovieDetails {
  import opened JsValues
  import opened JsStrings
  import opened Lists

  // ----- runtime -----

  /** `minutes % 60` in JavaScript: the remainder takes the sign of the
      dividend. */
  function JsRemainder(a: int, b: int): (r: int)
    requires b > 0
    ensures a >= 0 ==> 0 <= r < b
    ensures a < 0 ==> -b < r <= 0
  {
    if a >= 0 then a % b else -((-a) % b)
  }

  /** `${hours}h ${mins}m`. */
  function RuntimeText(hours: int, mins: int): string {
    IntToString(hours) + "h " + IntToString(mins) + "m"
  }

  /** `formatRuntime(minutes)`: `'N/A'` for a missing or zero runtime,
      otherwise `Math.floor(minutes / 60)` hours and `minutes % 60` minutes
      (Dafny's `/` by a positive number already rounds down). */
  function FormatRuntime(minutes: Option<int>): (r: string)
    ensures minutes.None? || minutes.value == 0 <==> r == "N/A"
  {
    if minutes.None? || minutes.value == 0 then "N/A"
    else
      var m := minutes.value;
      RuntimeText(m / 60, JsRemainder(m, 60))
  }

  /** A positive runtime is split into whole hours and the minutes left
      over: `60 * hours + mins == minutes` with `0 <= mins < 60`. */
  lemma RuntimeSplit(m: int)
    requires m > 0
    ensures exists h: nat, r: nat :: r < 60 && 60 * h + r == m && FormatRuntime(Some(m)) == RuntimeText(h, r)
  {
    assert 60 * (m / 60) + m % 60 == m;
    assert FormatRuntime(Some(m)) == RuntimeText(m / 60, m % 60);
  }

  /** The digits of a number hold no `h`, so the text can be read back: two
      different positive runtimes never print alike. */
  lemma RuntimeTextInjective(a: int, b: int)
    requires a > 0 && b > 0
    requires FormatRuntime(Some(a)) == FormatRuntime(Some(b))
    ensures a == b
  {
    var ha, hb := IntToString(a / 60), IntToString(b / 60);
    var ta, tb := "h " + IntToString(JsRemainder(a, 60)) + "m", "h " + IntToString(JsRemainder(b, 60)) + "m";
    assert FormatRuntime(Some(a)) == ha + ta;
    assert FormatRuntime(Some(b)) == hb + tb;
    NoLetterInNumber(a / 60);
    NoLetterInNumber(b / 60);
    SplitAtFirstLetter(ha, ta, hb, tb);
    IntToStringInjective(a / 60, b / 60);
    SameBetween(IntToString(JsRemainder(a, 60)), IntToString(JsRemainder(b, 60)));
    IntToStringInjective(JsRemainder(a, 60), JsRemainder(b, 60));
  }

  lemma SameBetween(x: string, y: string)
    requires "h " + x + "m" == "h " + y + "m"
    ensures x == y
  {
    assert x == ("h " + x + "m")[2..|x| + 2];
    assert y == ("h " + y + "m")[2..|y| + 2];
  }

  lemma NoLetterInNumber(n: int)
    ensures 'h' !in IntToString(n)
  {
    var s := IntToString(n);
    var d := NatToString(if n < 0 then -n else n);
    assert n < 0 ==> s == "-" + d;
    forall i | 0 <= i < |s| ensures s[i] != 'h' {
      if n < 0 && i > 0 {
        assert s[i] == d[i - 1];
      }
    }
  }

  /** Two texts that each start with an `h`-free part and then an `h` split
      at the same place. */
  lemma SplitAtFirstLetter(x: string, t: string, y: string, u: string)
    requires 'h' !in x && 'h' !in y && |t| >= 1 && |u| >= 1 && t[0] == 'h' && u[0] == 'h'
    requires x + t == y + u
    ensures x == y && t == u
  {
    assert (x + t)[|x|] == 'h' && (y + u)[|y|] == 'h';
    forall i | 0 <= i < |x| ensures (y + u)[i] != 'h' {
      assert (y + u)[i] == (x + t)[i] == x[i];
    }
    forall i | 0 <= i < |y| ensures (x + t)[i] != 'h' {
      assert (x + t)[i] == (y + u)[i] == y[i];
    }
    assert |x| == |y|;
    assert x == (x + t)[..|x|] == (y + u)[..|y|] == y;
  }

  /** A negative runtime, which TMDb never sends, prints with both parts
      negative, because `Math.floor` rounds down and `%` truncates. */
  lemma NegativeRuntime()
    ensures FormatRuntime(Some(-30)) == "-1h -30m"
  {
    assert -30 / 60 == -1 && JsRemainder(-30, 60) == -30;
    assert IntToString(-1) == "-1";
    assert NatToString(30) == NatToString(3) + ['0'];
    assert IntToString(-30) == "-30";
  }

  /** `{movie.runtime && ...}`: the runtime row is shown when it is truthy. */
  predicate RuntimeShown(minutes: Option<int>) {
    minutes.Some? && minutes.value != 0
  }

  // ----- trailer -----

  datatype Video = Video(kind: string, site: string, key: string)

  predicate IsYouTubeTrailer(v: Video) {
    v.kind == "Trailer" && v.site == "YouTube"
  }

  const YouTubeWatch := "https://www.youtube.com/watch?v="

  /** `trailerUrl`: the watch link of the first YouTube trailer, or `null`. */
  function TrailerUrl(videos: seq<Video>): (r: Option<string>)
    ensures r.None? <==> forall i :: 0 <= i < |videos| ==> !IsYouTubeTrailer(videos[i])
  {
    match Find(IsYouTubeTrailer, videos)
    case None => None
    case Some(trailer) => Some(YouTubeWatch + trailer.key)
  }

  /** The link is that of the first YouTube trailer in the list. */
  lemma TrailerIsFirst(videos: seq<Video>)
    ensures TrailerUrl(videos).Some? ==>
      exists k :: 0 <= k < |videos| && IsYouTubeTrailer(videos[k])
        && TrailerUrl(videos).value == YouTubeWatch + videos[k].key
        && forall j :: 0 <= j < k ==> !IsYouTubeTrailer(videos[j])
  {
    FindIsFirst(IsYouTubeTrailer, videos);
  }

  // ----- cast -----

  datatype CastMember = CastMember(name: string, profilePath: Option<string>)

  /** `cast.slice(0, 6)`: the first six, in order. */
  function TopCast(cast: seq<CastMember>): (r: seq<CastMember>)
    ensures |r| == if |cast| < 6 then |cast| else 6
    ensures forall i :: 0 <= i < |r| ==> r[i] == cast[i]
  {
    Take(cast, 6)
  }

  const ProfileBase := "https://image.tmdb.org/t/p/w185"

  /** The avatar: the w185 portrait, or the broken-image placeholder. */
  function AvatarSrc(person: CastMember): (r: string)
    ensures Truthy(person.profilePath) ==> StartsWith(r, ProfileBase) && r[|ProfileBase|..] == person.profilePath.value
    ensures !Truthy(person.profilePath) ==> r == "/broken-image.jpg"
  {
    if Truthy(person.profilePath) then ProfileBase + person.profilePath.value else "/broken-image.jpg"
  }

  // ----- details -----

  /** `{movie.budget > 0 && ...}` and the same for the revenue. */
  predicate AmountShown(amount: Option<int>) {
    amount.Some? && amount.value > 0
  }

  /** The production companies line: the names joined by `, `, shown only
      when there is at least one company. */
  function CompaniesLine(names: seq<string>): (r: Option<string>)
    ensures r.Some? <==> |names| > 0
  {
    if |names| > 0 then Some(Join(names, ", ")) else None
  }

  function Spaced(name: string): string {
    " " + name
  }

  lemma {:induction false} JoinCommaSpace(names: seq<string>)
    requires |names| >= 1
    ensures Join(names, ", ") == Join([names[0]] + Map(Spaced, names[1..]), ",")
  {
    if |names| > 1 {
      JoinCommaSpace(names[1..]);
      var rest := Map(Spaced, names[1..]);
      assert Map(Spaced, names[1..][1..]) == rest[1..];
      assert [names[0]] + rest == [names[0]] + ([rest[0]] + rest[1..]);
      assert ([names[0]] + rest)[1..] == [Spaced(names[1])] + rest[1..];
    }
  }

  /** Names without commas can be read back from the line: splitting it at
      the commas gives the first name, then each other name after a space. */
  lemma CompaniesLineReadsBack(names: seq<string>)
    requires |names| >= 1 && forall i :: 0 <= i < |names| ==> ',' !in names[i]
    ensures Split(CompaniesLine(names).value, ',') == [names[0]] + Map(Spaced, names[1..])
  {
    JoinCommaSpace(names);
    var parts := [names[0]] + Map(Spaced, names[1..]);
    forall i | 0 <= i < |parts| ensures ',' !in parts[i] {
      if i > 0 {
        assert parts[i] == " " + names[i];
      }
    }
    SplitJoin(parts, ',');
  }
}
