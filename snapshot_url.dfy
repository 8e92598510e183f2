/** Resolution of a Golden Copy snapshot to its download address, and the
    inverse reading of the publish date-time out of an address
    (`GoldenCopyDownload.find_download_url` and `_extract_timestamp_from_url`). */
module SnapshotUrl {
  import opened Wrappers
  import opened Strings
  import opened DateTimes

  /** The publishes endpoint the class-level entry points construct the downloader with. */
  const GoldenCopyHost: string := "https://goldencopy.gleif.org"
  const GoldenCopyPublishes: string := GoldenCopyHost + "/api/v2/golden-copies/publishes/"

  /** `EXT_BY_TYPE`: the accepted file types and their extensions. */
  const ExtByType: map<string, string> := map["csv" := ".csv", "json" := ".json", "xml" := ".xml"]

  datatype UrlError =
    | InvalidFileType(filetype: string)  // the ValueError naming the lower-cased type
    | InvalidDateTime(text: string)      // the ValueError of `strptime` on `date time`

  /** An absent (empty) time means midnight. */
  function NormalizedTime(timeStr: string): string
  {
    if timeStr == "" then "00:00" else timeStr
  }

  /** `find_download_url(date_str, time_str, filetype, variant)` of a downloader whose
      `page_url` is `pageUrl`. The file type is checked before the date is parsed. */
  function FindDownloadUrl(pageUrl: string, dateStr: string, timeStr: string, filetype: string, variant: string)
    : (r: Result<string, UrlError>)
  {
    var ft, v := Lower(filetype), Lower(variant);
    if ft !in ExtByType then Err(InvalidFileType(ft))
    else
      var text := dateStr + " " + NormalizedTime(timeStr);
      match ParseDateTime(text)
      case None => Err(InvalidDateTime(text))
      case Some(dt) =>
        Ok(RStrip(pageUrl, '/') + "/" + v + "/" + TimeToken(dt) + ExtByType[ft])
  }

  /** The file-type check ignores letter case, and so does the variant. */
  lemma FileTypeCaseInsensitive(pageUrl: string, dateStr: string, timeStr: string, filetype: string, variant: string)
    ensures FindDownloadUrl(pageUrl, dateStr, timeStr, filetype, variant)
         == FindDownloadUrl(pageUrl, dateStr, timeStr, Lower(filetype), Lower(variant))
  {
    LowerIdempotent(filetype);
    LowerIdempotent(variant);
  }

  /** A file type other than csv, json or xml (in any case) is refused, whatever the
      date, and only such a type is refused with InvalidFileType. */
  lemma FileTypeRejection(pageUrl: string, dateStr: string, timeStr: string, filetype: string, variant: string)
    ensures FindDownloadUrl(pageUrl, dateStr, timeStr, filetype, variant) == Err(InvalidFileType(Lower(filetype)))
        <==> Lower(filetype) !in {"csv", "json", "xml"}
  {
  }

  /** A resolved address ends in the extension of its file type; returns
      that extension. */
  lemma UrlExtension(pageUrl: string, dateStr: string, timeStr: string, filetype: string, variant: string)
    returns (ext: string)
    requires FindDownloadUrl(pageUrl, dateStr, timeStr, filetype, variant).Ok?
    ensures Lower(filetype) in ExtByType && ext == ExtByType[Lower(filetype)]
    ensures ext != [] && ext[|ext| - 1] != '/'
    ensures var url := FindDownloadUrl(pageUrl, dateStr, timeStr, filetype, variant).value;
      |ext| <= |url| && url[|url| - |ext|..] == ext
  {
    FileTypeRejection(pageUrl, dateStr, timeStr, filetype, variant);
    var ft := Lower(filetype);
    assert ft in ExtByType;
    ext := ExtByType[ft];
    ExtensionEndsInLetter(ft);
    UrlLayout(pageUrl, dateStr, timeStr, filetype, variant);
    var url := FindDownloadUrl(pageUrl, dateStr, timeStr, filetype, variant).value;
    var prefix := RStrip(pageUrl, '/') + "/" + Lower(variant) + "/";
    var token := url[|prefix|..|prefix| + 13];
    assert url == (prefix + token) + ext;
  }

  lemma ExtensionEndsInLetter(ft: string)
    requires ft in ExtByType
    ensures ExtByType[ft] != [] && ExtByType[ft][|ExtByType[ft]| - 1] != '/'
  {
    var ext := ExtByType[ft];
    assert ext == ".csv" || ext == ".json" || ext == ".xml";
  }

  /** An empty time gives the same address as "00:00". */
  lemma EmptyTimeIsMidnight(pageUrl: string, dateStr: string, filetype: string, variant: string)
    ensures FindDownloadUrl(pageUrl, dateStr, "", filetype, variant)
         == FindDownloadUrl(pageUrl, dateStr, "00:00", filetype, variant)
  {
  }

  /** With a known file type the address exists exactly when `strptime` accepts the
      date and time, and it is then base, variant, token and extension, where the
      token `YYYYMMDD-HHMM` spells that date-time. */
  lemma UrlLayout(pageUrl: string, dateStr: string, timeStr: string, filetype: string, variant: string)
    requires Lower(filetype) in ExtByType
    ensures var text := dateStr + " " + NormalizedTime(timeStr);
            var r := FindDownloadUrl(pageUrl, dateStr, timeStr, filetype, variant);
            && (r.Ok? <==> ParseDateTime(text).Some?)
            && (r.Err? ==> r == Err(InvalidDateTime(text)))
            && (r.Ok? ==>
                  var prefix := RStrip(pageUrl, '/') + "/" + Lower(variant) + "/";
                  var token := r.value[|prefix|..|prefix| + 13];
                  && r.value == prefix + token + ExtByType[Lower(filetype)]
                  && ParseCompact(token[..8] + token[9..]) == ParseDateTime(text))
  {
    var text := dateStr + " " + NormalizedTime(timeStr);
    if ParseDateTime(text).Some? {
      var dt := ParseDateTime(text).value;
      var prefix := RStrip(pageUrl, '/') + "/" + Lower(variant) + "/";
      var url := prefix + TimeToken(dt) + ExtByType[Lower(filetype)];
      assert url[|prefix|..|prefix| + 13] == TimeToken(dt);
      CompactOfToken(dt);
    }
  }

  // ---- the inverse: `TARGET_DATETIME = (20\d{6})[-_](\d{4})` searched in a URL ----

  /** The pattern matches the 13 characters starting at `i`. */
  predicate TokenAt(s: string, i: nat)
    requires i + 13 <= |s|
  {
    && s[i] == '2' && s[i + 1] == '0'
    && AllDigits(s[i + 2..i + 8])
    && (s[i + 8] == '-' || s[i + 8] == '_')
    && AllDigits(s[i + 9..i + 13])
  }

  /** `re.search`: the leftmost position at or after `from` where the pattern matches. */
  function FirstTokenFrom(s: string, from: nat): (r: Option<nat>)
    ensures r.Some? ==> from <= r.value && r.value + 13 <= |s| && TokenAt(s, r.value)
    ensures r.Some? ==> forall k :: from <= k < r.value ==> !TokenAt(s, k)
    ensures r.None? ==> forall k :: from <= k && k + 13 <= |s| ==> !TokenAt(s, k)
    decreases |s| - from
  {
    if from + 13 > |s| then None
    else if TokenAt(s, from) then Some(from)
    else FirstTokenFrom(s, from + 1)
  }

  /** `_extract_timestamp_from_url(url)`: the date-time of the first match, or None
      when nothing matches or the first match's digits are not a valid date-time
      (a later match is not tried). */
  function ExtractTimestampFromUrl(url: string): (r: Option<DateTime>)
    ensures FirstTokenFrom(url, 0).None? ==> r.None?
    ensures r.Some? ==> r.value.IsValid() && 2000 <= r.value.year <= 2099
  {
    match FirstTokenFrom(url, 0)
    case None => None
    case Some(i) =>
      var g := url[i..i + 8] + url[i + 9..i + 13];
      assert AllDigits(g) by {
        assert url[i..i + 8] == [url[i], url[i + 1]] + url[i + 2..i + 8];
      }
      CenturyTwenty(g);
      ParseCompact(g)
  }

  lemma CenturyTwenty(g: string)
    requires |g| == 12 && AllDigits(g) && g[0] == '2' && g[1] == '0'
    ensures 2000 <= DigitsValue(g[..4]) <= 2099
  {
    var y := g[..4];
    assert y == "20" + y[2..];
    DigitsValueAppend2("20", y[2..]);
    assert "20"[..1] == "2";
  }

  /** The first match in `prefix + token + rest` is the token, when the prefix ends
      in `/` and holds no match of its own: a match that started inside the prefix
      would have to contain that `/`. */
  lemma FirstTokenAfterPrefix(prefix: string, token: string, rest: string)
    requires prefix != [] && prefix[|prefix| - 1] == '/'
    requires FirstTokenFrom(prefix, 0).None?
    requires |token| == 13 && TokenAt(token, 0)
    ensures FirstTokenFrom(prefix + token + rest, 0) == Some(|prefix|)
  {
    var s := prefix + token + rest;
    var n := |prefix|;
    forall k | 0 <= k < n && k + 13 <= |s|
      ensures !TokenAt(s, k)
    {
      if k + 13 <= n {
        assert s[k..k + 13] == prefix[k..k + 13];
        assert s[k + 2..k + 8] == prefix[k + 2..k + 8];
        assert s[k + 9..k + 13] == prefix[k + 9..k + 13];
        assert !TokenAt(prefix, k);
      } else {
        var o := n - 1 - k;
        assert s[k + o] == '/';
        if 2 <= o < 8 {
          assert s[k + 2..k + 8][o - 2] == '/';
        } else if 9 <= o {
          assert s[k + 9..k + 13][o - 9] == '/';
        }
      }
    }
    assert s[n..n + 13] == token;
    assert s[n + 2..n + 8] == token[2..8];
    assert s[n + 9..n + 13] == token[9..13];
    assert TokenAt(s, n);
  }

  /** The token of a date-time in the years 2000 to 2099 matches the pattern. */
  lemma TokenMatchesPattern(dt: DateTime)
    requires dt.IsValid() && 2000 <= dt.year <= 2099
    ensures |TimeToken(dt)| == 13 && TokenAt(TimeToken(dt), 0)
  {
    var token := TimeToken(dt);
    assert token[..4] == FourDigits(dt.year);
    assert FourDigits(dt.year)[..2] == TwoDigits(dt.year / 100);
    assert token[2..8] == token[..8][2..];
    assert token[9..13] == token[9..];
  }

  /** Reading the date back from `prefix + token + rest` reads the token's digits. */
  lemma ExtractAfterPrefix(prefix: string, token: string, rest: string)
    requires prefix != [] && prefix[|prefix| - 1] == '/'
    requires FirstTokenFrom(prefix, 0).None?
    requires |token| == 13 && TokenAt(token, 0)
    ensures AllDigits(token[..8] + token[9..])
    ensures ExtractTimestampFromUrl(prefix + token + rest) == ParseCompact(token[..8] + token[9..])
  {
    FirstTokenAfterPrefix(prefix, token, rest);
    var url := prefix + token + rest;
    var n := |prefix|;
    assert url[n..n + 8] == token[..8];
    assert url[n + 9..n + 13] == token[9..];
  }

  /** Round trip: for years 2000 to 2099 the date-time read back from the address
      `find_download_url` builds is the one it was asked for, provided the base and
      variant hold no date-time token themselves. */
  lemma ExtractInvertsFindDownloadUrl(pageUrl: string, dateStr: string, timeStr: string, filetype: string, variant: string)
    requires Lower(filetype) in ExtByType
    requires var p := ParseDateTime(dateStr + " " + NormalizedTime(timeStr)); p.Some? && 2000 <= p.value.year <= 2099
    requires FirstTokenFrom(RStrip(pageUrl, '/') + "/" + Lower(variant) + "/", 0).None?
    ensures var r := FindDownloadUrl(pageUrl, dateStr, timeStr, filetype, variant);
            r.Ok? && ExtractTimestampFromUrl(r.value) == ParseDateTime(dateStr + " " + NormalizedTime(timeStr))
  {
    var dt := ParseDateTime(dateStr + " " + NormalizedTime(timeStr)).value;
    var prefix := RStrip(pageUrl, '/') + "/" + Lower(variant) + "/";
    var token := TimeToken(dt);
    var ext := ExtByType[Lower(filetype)];
    assert FindDownloadUrl(pageUrl, dateStr, timeStr, filetype, variant) == Ok(prefix + token + ext);
    TokenMatchesPattern(dt);
    ExtractAfterPrefix(prefix, token, ext);
    CompactOfToken(dt);
  }

  /** The round trip holds for the daily LEI-record snapshots of the public
      publishes endpoint: its address holds no timestamp of its own. */
  lemma PublishedSnapshotRoundTrip(pageUrl: string, dateStr: string, timeStr: string, filetype: string, variant: string)
    requires pageUrl == GoldenCopyPublishes && variant == "lei2" && Lower(filetype) in ExtByType
    requires var p := ParseDateTime(dateStr + " " + NormalizedTime(timeStr)); p.Some? && 2000 <= p.value.year <= 2099
    ensures var r := FindDownloadUrl(pageUrl, dateStr, timeStr, filetype, variant);
            r.Ok? && ExtractTimestampFromUrl(r.value) == ParseDateTime(dateStr + " " + NormalizedTime(timeStr))
  {
    EndpointHasNoToken(pageUrl, variant);
    ExtractInvertsFindDownloadUrl(pageUrl, dateStr, timeStr, filetype, variant);
  }

  /** The publishes endpoint, with the `lei2` variant appended, holds no token. */
  lemma EndpointHasNoToken(endpoint: string, variant: string)
    requires endpoint == GoldenCopyPublishes && variant == "lei2"
    ensures FirstTokenFrom(RStrip(endpoint, '/') + "/" + Lower(variant) + "/", 0).None?
  {
    LowerOfLowerCase(variant);
    assert '0' !in GoldenCopyHost && '0' !in "/api/v2/golden-copies/publishes/";
    var base := RStrip(endpoint, '/');
    assert base == endpoint[..|base|];
    assert '0' !in base;
    assert '0' !in variant;
    NoZeroNoToken(base + "/" + variant + "/", 0);
  }

  /** A text without the digit 0 holds no date-time token. */
  lemma {:induction false} NoZeroNoToken(s: string, from: nat)
    requires '0' !in s
    ensures FirstTokenFrom(s, from).None?
    decreases |s| - from
  {
    if from + 13 <= |s| {
      assert s[from + 1] in s;
      NoZeroNoToken(s, from + 1);
    }
  }

  /** `YYYY-MM-DD` and `HH:MM`, the texts callers pass. */
  function IsoDate(dt: DateTime): string
    requires dt.IsValid()
  {
    FourDigits(dt.year) + "-" + TwoDigits(dt.month) + "-" + TwoDigits(dt.day)
  }

  function IsoTime(dt: DateTime): string
    requires dt.IsValid()
  {
    TwoDigits(dt.hour) + ":" + TwoDigits(dt.minute)
  }

  /** Every valid date with a known file type resolves. */
  lemma CanonicalDateResolves(pageUrl: string, dt: DateTime, filetype: string, variant: string)
    requires dt.IsValid() && Lower(filetype) in ExtByType
    ensures FindDownloadUrl(pageUrl, IsoDate(dt), IsoTime(dt), filetype, variant)
         == Ok(RStrip(pageUrl, '/') + "/" + Lower(variant) + "/" + TimeToken(dt) + ExtByType[Lower(filetype)])
  {
    var text := IsoDate(dt) + " " + NormalizedTime(IsoTime(dt));
    assert NormalizedTime(IsoTime(dt)) == IsoTime(dt);
    assert text == IsoText(dt);
    ParseIsoText(dt);
  }

  /** At midnight the time may be left out. */
  lemma MidnightMayBeOmitted(pageUrl: string, dt: DateTime, filetype: string, variant: string)
    requires dt.IsValid() && Lower(filetype) in ExtByType && dt.hour == 0 && dt.minute == 0
    ensures FindDownloadUrl(pageUrl, IsoDate(dt), "", filetype, variant)
         == Ok(RStrip(pageUrl, '/') + "/" + Lower(variant) + "/" + TimeToken(dt) + ExtByType[Lower(filetype)])
  {
    assert IsoTime(dt) == "00:00";
    EmptyTimeIsMidnight(pageUrl, IsoDate(dt), filetype, variant);
    CanonicalDateResolves(pageUrl, dt, filetype, variant);
  }

  /** The daily LEI-record CSV snapshot of 22 September 2025 (`"2025-09-22"`)
      with the time left out resolves to `<base>/lei2/20250922-0000.csv`. */
  lemma DailyLeiSnapshotExample(pageUrl: string, date: string, dt: DateTime, filetype: string, variant: string)
    requires date == "2025-09-22" && dt == DateTime(2025, 9, 22, 0, 0) && filetype == "csv" && variant == "lei2"
    ensures FindDownloadUrl(pageUrl, date, "", filetype, variant)
         == Ok(RStrip(pageUrl, '/') + "/lei2/20250922-0000.csv")
  {
    ExampleDate();
    assert IsoDate(dt) == date;
    LowerOfLowerCase(filetype);
    LowerOfLowerCase(variant);
    assert dt.IsValid();
    MidnightMayBeOmitted(pageUrl, dt, filetype, variant);
    ExampleToken();
    ExampleSuffix(RStrip(pageUrl, '/'), Lower(variant), TimeToken(dt), ExtByType[filetype]);
  }

  lemma ExampleSuffix(base: string, v: string, t: string, e: string)
    requires v == "lei2" && t == "20250922-0000" && e == ".csv"
    ensures base + "/" + v + "/" + t + e == base + "/lei2/20250922-0000.csv"
  {
    assert "/" + v + "/" + t + e == "/lei2/20250922-0000.csv";
    assert base + "/" + v + "/" + t + e == base + ("/" + v + "/" + t + e);
  }

  /** The date used in that example is written `"2025-09-22"`. */
  lemma ExampleDate()
    ensures IsoDate(DateTime(2025, 9, 22, 0, 0)) == "2025-09-22"
  {
    assert FourDigits(2025) == "2025";
    assert TwoDigits(9) == "09" && TwoDigits(22) == "22";
  }

  lemma ExampleToken()
    ensures TimeToken(DateTime(2025, 9, 22, 0, 0)) == "20250922-0000"
  {
    assert FourDigits(2025) == "2025";
    assert TwoDigits(9) == "09" && TwoDigits(22) == "22" && TwoDigits(0) == "00";
  }

  lemma LowerOfLowerCase(s: string)
    requires forall k :: 0 <= k < |s| ==> !('A' <= s[k] <= 'Z')
    ensures Lower(s) == s
  {
  }
}
