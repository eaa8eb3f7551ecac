/** The string helpers of `src/utils.py`: the URL recogniser, the file-name
    sanitiser and the duration formatter. */
module Utils {
  import opened Common

  // ===========================================================================
  // validate_youtube_url
  // ===========================================================================

  /** `[\w-]`, with `\w` taken as the ASCII letters, digits and underscore. */
  predicate IsIdChar(c: char) {
    'a' <= c <= 'z' || 'A' <= c <= 'Z' || '0' <= c <= '9' || c == '_' || c == '-'
  }

  /** One pattern `(?:https?://)?(?:<subdomain>)?<path>[\w-]+`. */
  datatype UrlShape = UrlShape(subdomain: string, path: string)

  /** The four patterns, in the order they are tried. */
  const UrlShapes: seq<UrlShape> := [
    UrlShape("www.", "youtube.com/watch?v="),
    UrlShape("www.", "youtu.be/"),
    UrlShape("www.", "youtube.com/playlist?list="),
    UrlShape("m.", "youtube.com/watch?v=")
  ]

  /** Every literal text a shape can begin with: each choice of the optional
      scheme `https?://` and of the optional subdomain. */
  function ShapePrefixes(shape: UrlShape): (ps: seq<string>)
    ensures |ps| == 6
  {
    [ "http://" + shape.subdomain + shape.path, "http://" + shape.path,
      "https://" + shape.subdomain + shape.path, "https://" + shape.path,
      shape.subdomain + shape.path, shape.path ]
  }

  /** `url` begins with `prefix` and at least one id character follows it.
      `re.match` anchors only at the start, so nothing is required of what
      comes after that first id character. */
  predicate LiteralThenId(prefix: string, url: string) {
    |prefix| < |url| && prefix == url[..|prefix|] && IsIdChar(url[|prefix|])
  }

  /** `re.match(pattern, url)` succeeds for the pattern of `shape`: some
      choice of the optional groups leaves a literal prefix of `url` that is
      followed by an id character. */
  predicate MatchesShape(shape: UrlShape, url: string) {
    exists i :: 0 <= i < 6 && LiteralThenId(ShapePrefixes(shape)[i], url)
  }

  /** `validate_youtube_url`: true as soon as one of the patterns matches. */
  predicate ValidateYoutubeUrl(url: string) {
    exists k :: 0 <= k < |UrlShapes| && MatchesShape(UrlShapes[k], url)
  }

  /** The scheme `re.match` can consume at the start of `url`, if any. */
  function SchemeOf(url: string): (p: string)
    ensures p <= url
  {
    if "https://" <= url then "https://" else if "http://" <= url then "http://" else ""
  }

  /** A deterministic recogniser for the same language, used as an
      independent reference: drop the scheme if there is one, then the
      subdomain if there is one, then look for one of the paths that
      subdomain allows, followed by an id character. */
  function RecognizeYoutubeUrl(url: string): bool {
    var rest := url[|SchemeOf(url)|..];
    if "www." <= rest then
      var r := rest[4..];
      LiteralThenId("youtube.com/watch?v=", r) || LiteralThenId("youtu.be/", r) ||
      LiteralThenId("youtube.com/playlist?list=", r)
    else if "m." <= rest then
      LiteralThenId("youtube.com/watch?v=", rest[2..])
    else
      LiteralThenId("youtube.com/watch?v=", rest) || LiteralThenId("youtu.be/", rest) ||
      LiteralThenId("youtube.com/playlist?list=", rest)
  }

  lemma LiteralThenIdAfter(p: string, q: string, url: string)
    requires p <= url
    ensures LiteralThenId(p + q, url) <==> LiteralThenId(q, url[|p|..])
  {
    if LiteralThenId(p + q, url) {
      assert url[|p|..][..|q|] == url[..|p + q|][|p|..];
    }
    if LiteralThenId(q, url[|p|..]) {
      assert url[..|p + q|] == url[..|p|] + url[|p|..][..|q|];
    }
  }

  /** Two literals that differ at some position cannot both begin `url`. */
  lemma LiteralThenIdClash(p: string, q: string, url: string, k: nat)
    requires k < |p| && k < |q| && p[k] != q[k]
    ensures q <= url ==> !LiteralThenId(p, url)
  {
    if q <= url {
      assert url[k] == q[k];
    }
  }

  lemma LiteralThenIdHasPrefix(p: string, q: string, url: string)
    ensures LiteralThenId(p + q, url) ==> p <= url
  {
    if LiteralThenId(p + q, url) {
      assert (p + q)[..|p|] == p;
      assert url[..|p|] == (p + q)[..|p|];
    }
  }

  /** The optional scheme group can only take the scheme `url` starts with,
      since no body of a pattern starts with 'h'. */
  lemma SchemeSplit(p: string, body: string, url: string)
    requires p == "http://" || p == "https://" || p == ""
    requires |body| > 0 && body[0] != 'h'
    ensures LiteralThenId(p + body, url) <==> p == SchemeOf(url) && LiteralThenId(body, url[|p|..])
  {
    var s := SchemeOf(url);
    if p == s {
      LiteralThenIdAfter(p, body, url);
    } else if s != "" {
      var k := if p == "" then 0 else 4;
      assert (p + body)[k] != s[k];
      LiteralThenIdClash(p + body, s, url, k);
    } else {
      LiteralThenIdHasPrefix(p, body, url);
    }
  }

  lemma SchemeSplitAt(shape: UrlShape, url: string, i: nat)
    requires i < 6
    requires |shape.path| > 0 && shape.path[0] == 'y' && |shape.subdomain| > 0 && shape.subdomain[0] != 'h'
    ensures var scheme := if i < 2 then "http://" else if i < 4 then "https://" else "";
            var body := if i % 2 == 0 then shape.subdomain + shape.path else shape.path;
            LiteralThenId(ShapePrefixes(shape)[i], url) <==>
              scheme == SchemeOf(url) && LiteralThenId(body, url[|scheme|..])
  {
    var scheme := if i < 2 then "http://" else if i < 4 then "https://" else "";
    var body := if i % 2 == 0 then shape.subdomain + shape.path else shape.path;
    assert ShapePrefixes(shape)[i] == scheme + body;
    SchemeSplit(scheme, body, url);
  }

  /** What one shape needs of the text after the scheme. */
  lemma MatchesShapeAfterScheme(shape: UrlShape, url: string)
    requires |shape.path| > 0 && shape.path[0] == 'y' && |shape.subdomain| > 0 && shape.subdomain[0] != 'h'
    ensures var rest := url[|SchemeOf(url)|..];
            MatchesShape(shape, url) <==>
              LiteralThenId(shape.subdomain + shape.path, rest) || LiteralThenId(shape.path, rest)
  {
    SchemeSplitAt(shape, url, 0);
    SchemeSplitAt(shape, url, 1);
    SchemeSplitAt(shape, url, 2);
    SchemeSplitAt(shape, url, 3);
    SchemeSplitAt(shape, url, 4);
    SchemeSplitAt(shape, url, 5);
  }

  /** The optional subdomain group can only take the subdomain the text
      starts with, since every path starts with 'y'. */
  lemma SubdomainSplit(sub: string, path: string, rest: string)
    requires sub == "www." || sub == "m."
    requires |path| > 0 && path[0] == 'y'
    ensures LiteralThenId(sub + path, rest) <==> sub <= rest && LiteralThenId(path, rest[|sub|..])
    ensures LiteralThenId(path, rest) ==> !("www." <= rest) && !("m." <= rest)
  {
    if sub <= rest {
      LiteralThenIdAfter(sub, path, rest);
    } else {
      LiteralThenIdHasPrefix(sub, path, rest);
    }
    LiteralThenIdClash(path, "www.", rest, 0);
    LiteralThenIdClash(path, "m.", rest, 0);
  }

  /** The recogniser accepts exactly the strings one of the four patterns
      matches. */
  lemma ValidateAgreesWithRecognizer(url: string)
    ensures ValidateYoutubeUrl(url) == RecognizeYoutubeUrl(url)
  {
    var rest := url[|SchemeOf(url)|..];
    var watch, short, list := "youtube.com/watch?v=", "youtu.be/", "youtube.com/playlist?list=";
    MatchesShapeAfterScheme(UrlShapes[0], url);
    MatchesShapeAfterScheme(UrlShapes[1], url);
    MatchesShapeAfterScheme(UrlShapes[2], url);
    MatchesShapeAfterScheme(UrlShapes[3], url);
    SubdomainSplit("www.", watch, rest);
    SubdomainSplit("www.", short, rest);
    SubdomainSplit("www.", list, rest);
    SubdomainSplit("m.", watch, rest);
    if "www." <= rest {
      assert !("m." <= rest);
    }
    assert ValidateYoutubeUrl(url) <==>
      MatchesShape(UrlShapes[0], url) || MatchesShape(UrlShapes[1], url) ||
      MatchesShape(UrlShapes[2], url) || MatchesShape(UrlShapes[3], url);
  }

  /** Matching is prefix-closed: `re.match` looks only at a prefix, so text
      appended to a valid URL keeps it valid. */
  lemma ValidateExtends(url: string, tail: string)
    requires ValidateYoutubeUrl(url)
    ensures ValidateYoutubeUrl(url + tail)
  {
    var k :| 0 <= k < |UrlShapes| && MatchesShape(UrlShapes[k], url);
    var i :| 0 <= i < 6 && LiteralThenId(ShapePrefixes(UrlShapes[k])[i], url);
    var p := ShapePrefixes(UrlShapes[k])[i];
    assert (url + tail)[..|p|] == url[..|p|];
    assert (url + tail)[|p|] == url[|p|];
    assert LiteralThenId(p, url + tail);
  }

  /** Anything that does not begin with an http(s) scheme, a `www.` or `m.`
      subdomain, or one of the host paths is rejected; in particular every
      other scheme, such as `ftp://`, is. */
  lemma ValidateNeedsKnownStart(url: string)
    ensures ValidateYoutubeUrl(url) ==>
            "http://" <= url || "https://" <= url || "www." <= url || "m." <= url ||
            "youtube.com/" <= url || "youtu.be/" <= url
  {
    ValidateAgreesWithRecognizer(url);
    if SchemeOf(url) == "" {
      assert url[|SchemeOf(url)|..] == url;
      assert "youtube.com/watch?v=" == "youtube.com/" + "watch?v=";
      assert "youtube.com/playlist?list=" == "youtube.com/" + "playlist?list=";
      assert "youtu.be/" == "youtu.be/" + "";
      LiteralThenIdHasPrefix("youtube.com/", "watch?v=", url);
      LiteralThenIdHasPrefix("youtube.com/", "playlist?list=", url);
      LiteralThenIdHasPrefix("youtu.be/", "", url);
    }
  }

  /** Each literal prefix a pattern allows, followed by an id character, is
      accepted. */
  lemma ValidateAcceptsPrefixThenId(k: nat, i: nat, id: string)
    requires k < |UrlShapes| && i < 6 && id != [] && IsIdChar(id[0])
    ensures ValidateYoutubeUrl(ShapePrefixes(UrlShapes[k])[i] + id)
  {
    var p := ShapePrefixes(UrlShapes[k])[i];
    var url := p + id;
    assert url[..|p|] == p && url[|p|] == id[0];
    assert LiteralThenId(p, url);
    assert MatchesShape(UrlShapes[k], url);
  }

  /** A watch URL with scheme and subdomain is accepted. */
  lemma ValidateAcceptsWatchUrl()
    ensures ValidateYoutubeUrl("https://" + "www." + "youtube.com/watch?v=" + "abc123")
  {
    ValidateAcceptsPrefixThenId(0, 2, "abc123");
  }

  /** Text whose first character is none of 'h', 'w', 'm', 'y' is rejected. */
  lemma ValidateRejectsBadFirstChar(url: string)
    requires url == [] || url[0] !in "hwmy"
    ensures !ValidateYoutubeUrl(url)
  {
    ValidateNeedsKnownStart(url);
  }

  /** After the scheme, an accepted URL goes on with the `www.` or `m.`
      subdomain or with a host path, so with 'w', 'm' or 'y'. */
  lemma ValidateNeedsKnownHost(url: string)
    ensures ValidateYoutubeUrl(url) ==>
            var rest := url[|SchemeOf(url)|..];
            rest != [] && (rest[0] == 'w' || rest[0] == 'm' || rest[0] == 'y')
  {
    ValidateAgreesWithRecognizer(url);
    var rest := url[|SchemeOf(url)|..];
    if RecognizeYoutubeUrl(url) && !("www." <= rest) && !("m." <= rest) {
      assert rest[0] == 'y' by {
        if LiteralThenId("youtube.com/watch?v=", rest) {
          assert rest[0] == "youtube.com/watch?v="[0];
        } else if LiteralThenId("youtu.be/", rest) {
          assert rest[0] == "youtu.be/"[0];
        } else {
          assert rest[0] == "youtube.com/playlist?list="[0];
        }
      }
    }
  }

  /** Another host is rejected. */
  lemma ValidateRejectsOtherHost()
    ensures !ValidateYoutubeUrl("https://example.com/video")
  {
    var url := "https://example.com/video";
    ValidateNeedsKnownHost(url);
    assert SchemeOf(url) == "https://" by {
      assert url[..8] == "https://";
    }
    assert url[8] == 'e';
  }

  /** A watch URL with an empty video id is rejected. */
  lemma ValidateRejectsEmptyId()
    ensures !ValidateYoutubeUrl("youtube.com/watch?v=")
  {
    var url := "youtube.com/watch?v=";
    assert SchemeOf(url) == "" by {
      assert url[0] == 'y';
    }
    assert !RecognizeYoutubeUrl(url) by {
      assert url[0..] == url;
      LiteralThenIdClash("youtu.be/", url, url, 5);
      LiteralThenIdClash("youtube.com/playlist?list=", url, url, 12);
      assert !("www." <= url) && !("m." <= url) by {
        assert url[0] == 'y';
      }
    }
    ValidateAgreesWithRecognizer(url);
  }

  /** A URL with another scheme is rejected. */
  lemma ValidateRejectsOtherScheme()
    ensures !ValidateYoutubeUrl("ftp://youtube.com/watch?v=abc")
  {
    ValidateRejectsBadFirstChar("ftp://youtube.com/watch?v=abc");
  }

  // ===========================================================================
  // sanitize_filename
  // ===========================================================================

  /** The nine characters of the class `[<>:"/\\|?*]`. */
  predicate IsInvalidFilenameChar(c: char) {
    c == '<' || c == '>' || c == ':' || c == '"' || c == '/' || c == '\\' || c == '|' || c == '?' || c == '*'
  }

  /** `re.sub(r'[<>:"/\\|?*]', '_', s)`: each invalid character becomes an
      underscore, every other character stays where it was. */
  function ReplaceInvalidChars(s: string): (r: string)
    ensures |r| == |s|
    ensures forall i :: 0 <= i < |s| ==> r[i] == if IsInvalidFilenameChar(s[i]) then '_' else s[i]
  {
    if s == [] then []
    else [if IsInvalidFilenameChar(s[0]) then '_' else s[0]] + ReplaceInvalidChars(s[1..])
  }

  /** The longest file name the sanitiser lets through. */
  const MaxFilenameLength := 255

  /** `sanitize_filename`: replace, strip, then cut to 255 characters. */
  function SanitizeFilename(name: string): (r: string)
    ensures |r| <= MaxFilenameLength
    ensures var t := Strip(ReplaceInvalidChars(name));
            |r| == (if |t| <= MaxFilenameLength then |t| else MaxFilenameLength) && r == t[..|r|]
  {
    var t := Strip(ReplaceInvalidChars(name));
    if |t| <= MaxFilenameLength then t else t[..MaxFilenameLength]
  }

  /** No character of the class survives sanitising. */
  lemma SanitizeHasNoInvalidChars(name: string)
    ensures forall i :: 0 <= i < |SanitizeFilename(name)| ==> !IsInvalidFilenameChar(SanitizeFilename(name)[i])
  {
    SanitizeKeepsCharacters(name);
  }

  /** Every character of the result is the character of the title at a fixed
      offset (the length of the stripped leading whitespace), or an underscore
      where the title had an invalid character. */
  lemma SanitizeKeepsCharacters(name: string)
    ensures var r := SanitizeFilename(name);
            var off := LeadingWhitespace(ReplaceInvalidChars(name));
            off + |r| <= |name| &&
            forall k :: 0 <= k < |r| ==>
              r[k] == if IsInvalidFilenameChar(name[off + k]) then '_' else name[off + k]
  {
    var s := ReplaceInvalidChars(name);
    var off := LeadingWhitespace(s);
    var t := Strip(s);
    var r := SanitizeFilename(name);
    assert t == s[off..off + |t|];
    PrefixOfSlice(s, off, t, r);
  }

  /** A prefix `r` of the slice `t` of `s` that starts at `off`. */
  lemma PrefixOfSlice(s: string, off: nat, t: string, r: string)
    requires off + |t| <= |s| && t == s[off..off + |t|] && r <= t
    ensures forall k :: 0 <= k < |r| ==> r[k] == s[off + k]
  {
    forall k | 0 <= k < |r| ensures r[k] == s[off + k] {
      assert r[k] == t[k];
    }
  }

  /** A name that needs no cut is a fixed point: sanitising it again changes
      nothing. */
  lemma SanitizeIdempotent(name: string)
    requires |Strip(ReplaceInvalidChars(name))| <= MaxFilenameLength
    ensures SanitizeFilename(SanitizeFilename(name)) == SanitizeFilename(name)
  {
    var t := Strip(ReplaceInvalidChars(name));
    var r := SanitizeFilename(name);
    assert r == t[..|t|];
    assert t[..|t|] == t;
    SanitizeHasNoInvalidChars(name);
    ReplaceKeepsClean(r);
    StripIsStripped(ReplaceInvalidChars(name));
    StripOfStripped(r);
    var t' := Strip(ReplaceInvalidChars(r));
    assert t' == r;
    assert SanitizeFilename(r) == t'[..|t'|];
    assert t'[..|t'|] == t';
  }

  /** A name without invalid characters is left as it is. */
  lemma ReplaceKeepsClean(s: string)
    requires forall i :: 0 <= i < |s| ==> !IsInvalidFilenameChar(s[i])
    ensures ReplaceInvalidChars(s) == s
  {
    var r := ReplaceInvalidChars(s);
    assert forall i :: 0 <= i < |s| ==> r[i] == s[i];
  }

  /** The cut comes after the strip, so a result may end in whitespace, and
      sanitising it again then shortens it. */
  lemma SanitizeMayEndInSpace(name: string)
    requires IsStripped(name) && |name| > MaxFilenameLength && IsWhitespace(name[MaxFilenameLength - 1])
    requires forall i :: 0 <= i < |name| ==> !IsInvalidFilenameChar(name[i])
    ensures var r := SanitizeFilename(name);
            r == name[..MaxFilenameLength] && IsWhitespace(r[|r| - 1]) && SanitizeFilename(r) != r
  {
    ReplaceKeepsClean(name);
    StripOfStripped(name);
    var r := SanitizeFilename(name);
    assert r == name[..MaxFilenameLength];
    assert r[|r| - 1] == name[MaxFilenameLength - 1];
    SanitizeMovesUnstripped(r);
  }

  /** Sanitising changes a clean name that has whitespace at one of its ends. */
  lemma SanitizeMovesUnstripped(r: string)
    requires |r| <= MaxFilenameLength && !IsStripped(r)
    requires forall i :: 0 <= i < |r| ==> !IsInvalidFilenameChar(r[i])
    ensures SanitizeFilename(r) != r
  {
    ReplaceKeepsClean(r);
    StripIsStripped(r);
    var t := Strip(r);
    assert SanitizeFilename(r) == t[..|t|];
    assert t[..|t|] == t;
  }

  /** A title of 254 letters, a space and a letter loses its last letter and
      keeps the space. */
  lemma SanitizeEndsInSpaceExample()
    ensures var r := SanitizeFilename(seq(254, _ => 'a') + " b");
            |r| == MaxFilenameLength && r[|r| - 1] == ' ' && SanitizeFilename(r) != r
  {
    var name := seq(254, _ => 'a') + " b";
    assert |name| == 256 && name[0] == 'a' && name[254] == ' ' && name[255] == 'b';
    forall i | 0 <= i < |name| ensures !IsInvalidFilenameChar(name[i]) {
      assert name[i] == 'a' || name[i] == ' ' || name[i] == 'b';
    }
    SanitizeMayEndInSpace(name);
  }

  /** A name of at most 255 characters with no whitespace at either end only
      has its invalid characters replaced: "A/B:C*D?" becomes "A_B_C_D_". */
  lemma SanitizeOnlyReplaces(name: string)
    requires IsStripped(name) && |name| <= MaxFilenameLength
    ensures SanitizeFilename(name) == ReplaceInvalidChars(name)
  {
    var s := ReplaceInvalidChars(name);
    ReplaceKeepsStripped(name);
    StripOfStripped(s);
    var t := Strip(s);
    assert SanitizeFilename(name) == t[..|t|];
    assert t[..|t|] == t;
  }

  /** An underscore is not whitespace, so replacing keeps a stripped name stripped. */
  lemma ReplaceKeepsStripped(name: string)
    requires IsStripped(name)
    ensures IsStripped(ReplaceInvalidChars(name))
  {
    var s := ReplaceInvalidChars(name);
    if s != [] {
      assert !IsWhitespace('_');
      assert s[0] == '_' || s[0] == name[0];
      assert s[|s| - 1] == '_' || s[|s| - 1] == name[|name| - 1];
    }
  }

  // ===========================================================================
  // format_duration
  // ===========================================================================

  /** `f"{n:02d}"` for a non-negative `n`: at least two digits, zero-padded. */
  function Pad2(n: nat): (s: string)
    ensures |s| >= 2 && AllDigits(s) && DigitsValue(s) == n
    ensures n < 100 ==> |s| == 2
    ensures |s| == 2 || s[0] != '0'
  {
    DigitsValueOfNatToString(n);
    if n < 10 then
      var s := "0" + NatToString(n);
      assert s[..|s| - 1] == "0";
      s
    else NatToString(n)
  }

  /** `format_duration`: zero (falsy) is "Unknown"; otherwise the hours,
      minutes and seconds of Python's floor division, as `HH:MM:SS` when the
      hours are positive and as `MM:SS` otherwise. */
  function FormatDuration(seconds: int): (r: string)
    ensures r == "Unknown" <==> seconds == 0
  {
    if seconds == 0 then "Unknown"
    else
      var hours := seconds / 3600;
      var minutes := (seconds % 3600) / 60;
      var secs := seconds % 60;
      var r := if hours > 0 then Pad2(hours) + ":" + Pad2(minutes) + ":" + Pad2(secs)
               else Pad2(minutes) + ":" + Pad2(secs);
      assert r[2] == ':' || r[|r| - 3] == ':';
      assert "Unknown"[2] != ':' && "Unknown"[4] != ':';
      r
  }

  /** `s.split(sep)`. */
  function SplitOn(s: string, sep: char): (fields: seq<string>)
    ensures |fields| >= 1
  {
    if s == [] then [""]
    else
      var rest := SplitOn(s[1..], sep);
      if s[0] == sep then [""] + rest else [[s[0]] + rest[0]] + rest[1..]
  }

  lemma {:induction false} SplitOnField(a: string, b: string, sep: char)
    requires sep !in a
    ensures SplitOn(a + [sep] + b, sep) == [a] + SplitOn(b, sep)
    ensures SplitOn(a, sep) == [a]
  {
    if a == [] {
      assert a + [sep] + b == [sep] + b;
      assert ([sep] + b)[1..] == b;
    } else {
      assert (a + [sep] + b)[1..] == a[1..] + [sep] + b;
      SplitOnField(a[1..], b, sep);
      assert [a[0]] + a[1..] == a;
    }
  }

  /** Reads a `format_duration` text back into seconds: two or three
      colon-separated numerals, weighted 60 and 3600. */
  function ParseDuration(s: string): Option<int> {
    var f := SplitOn(s, ':');
    if |f| == 3 && AllDigits(f[0]) && AllDigits(f[1]) && AllDigits(f[2]) then
      Some(DigitsValue(f[0]) * 3600 + DigitsValue(f[1]) * 60 + DigitsValue(f[2]))
    else if |f| == 2 && AllDigits(f[0]) && AllDigits(f[1]) then
      Some(DigitsValue(f[0]) * 60 + DigitsValue(f[1]))
    else None
  }

  /** The layout of a known duration: three fields exactly when there is at
      least an hour, two otherwise; minutes and seconds have two digits. */
  lemma FormatDurationLayout(seconds: int)
    requires seconds != 0
    ensures var f := SplitOn(FormatDuration(seconds), ':');
            (|f| == 3 <==> seconds >= 3600) && (|f| == 2 <==> seconds < 3600) &&
            |f[|f| - 1]| == 2 && |f[|f| - 2]| == 2 && (|f| == 3 ==> |f[0]| >= 2)
  {
    DurationFields(seconds);
  }

  lemma DurationFields(seconds: int)
    requires seconds != 0
    ensures var hours, minutes, secs := seconds / 3600, (seconds % 3600) / 60, seconds % 60;
            SplitOn(FormatDuration(seconds), ':') ==
              if hours > 0 then [Pad2(hours), Pad2(minutes), Pad2(secs)] else [Pad2(minutes), Pad2(secs)]
  {
    var hours, minutes, secs := seconds / 3600, (seconds % 3600) / 60, seconds % 60;
    var c := ':';
    assert c !in Pad2(minutes) && c !in Pad2(secs) by {
      assert forall x :: x in Pad2(minutes) ==> IsDigit(x);
      assert forall x :: x in Pad2(secs) ==> IsDigit(x);
    }
    SplitOnField(Pad2(minutes), Pad2(secs), c);
    SplitOnField(Pad2(secs), "", c);
    if hours > 0 {
      assert c !in Pad2(hours) by { assert forall x :: x in Pad2(hours) ==> IsDigit(x); }
      assert FormatDuration(seconds) == Pad2(hours) + [c] + (Pad2(minutes) + [c] + Pad2(secs));
      SplitOnField(Pad2(hours), Pad2(minutes) + [c] + Pad2(secs), c);
    } else {
      assert FormatDuration(seconds) == Pad2(minutes) + [c] + Pad2(secs);
    }
  }

  /** Python's floor division splits a duration into hours, minutes below 60
      and seconds below 60 that add back up to it. */
  lemma HoursMinutesSeconds(seconds: int)
    ensures var hours, minutes, secs := seconds / 3600, (seconds % 3600) / 60, seconds % 60;
            0 <= minutes < 60 && 0 <= secs < 60 &&
            seconds % 3600 == minutes * 60 + secs && seconds == hours * 3600 + minutes * 60 + secs
  {
    var hours, q := seconds / 3600, seconds % 3600;
    assert seconds == hours * 3600 + q;
    var minutes, r := q / 60, q % 60;
    assert q == minutes * 60 + r;
    assert seconds == (hours * 60 + minutes) * 60 + r;
    assert seconds % 60 == r;
  }

  /** Round trip: the text of a positive duration reads back as that many
      seconds. A negative duration shows as its remainder modulo one hour,
      following Python's floor division. */
  lemma FormatDurationRoundTrip(seconds: int)
    requires seconds != 0
    ensures ParseDuration(FormatDuration(seconds)) == Some(if seconds > 0 then seconds else seconds % 3600)
  {
    DurationFields(seconds);
    HoursMinutesSeconds(seconds);
  }
}
