/** The selection logic of the Qt window `YouTubeDownloader`
    (youtube_downloader.py): the resolution list and container choices of the
    configuration page, the yt-dlp options of the quick and the custom
    download, and the progress bar. Widgets are represented by their
    contents. */
module QtConfig {
  import opened Common
  import opened Formats
  import opened Sorting

  // ---------------------------------------------------------------------------
  // Resolution list
  // ---------------------------------------------------------------------------

  const AllowedResolutions: set<string> := {"1080p", "720p", "480p", "360p", "240p", "144p"}

  /** The formats considered (youtube_downloader.py:276): video only, with a
      truthy height. The audio test is the opposite of the one the catalog
      of src/downloader.py uses. */
  predicate QtCandidate(f: Format) {
    IsVideoOnly(f) && Truthy(f.height)
  }

  /** The list comprehension of youtube_downloader.py:276. */
  function Candidates(fs: seq<Format>): (r: seq<Format>)
    ensures forall f :: f in r <==> f in fs && QtCandidate(f)
  {
    if fs == [] then [] else (if QtCandidate(fs[0]) then [fs[0]] else []) + Candidates(fs[1..])
  }

  /** The sort key `f.get('height', 0)`. */
  function HeightKey(f: Format): int {
    f.height.GetOr(0)
  }

  /** `f"{height}p"` of a format. */
  function Resolution(f: Format): string {
    HeightLabel(HeightKey(f))
  }

  /** The resolutions of the formats added so far (`added_resolutions`). */
  function Added(c: seq<Format>): (r: set<string>)
    ensures forall f :: f in c ==> Resolution(f) in r
  {
    if c == [] then {} else Added(c[..|c| - 1]) + {Resolution(c[|c| - 1])}
  }

  /** Every resolution in `Added(c)` is that of a format of `c`. */
  lemma {:induction false} AddedComesFrom(c: seq<Format>, x: string)
    requires x in Added(c)
    ensures exists f :: f in c && Resolution(f) == x
  {
    var init := c[..|c| - 1];
    if x != Resolution(c[|c| - 1]) {
      AddedComesFrom(init, x);
      var f :| f in init && Resolution(f) == x;
      assert f in c;
    }
  }

  /** The loop takes `f` after having added `prev`: `f` has a truthy height
      whose resolution is allowed and not added yet. */
  predicate Takes(prev: seq<Format>, f: Format) {
    Truthy(f.height) && Resolution(f) in AllowedResolutions && Resolution(f) !in Added(prev)
  }

  /** The formats the loop of youtube_downloader.py:279-292 adds to the
      combo box, in order, after going through `s`. */
  function ChosenFormats(s: seq<Format>): seq<Format> {
    if s == [] then []
    else
      var prev, f := ChosenFormats(s[..|s| - 1]), s[|s| - 1];
      if Takes(prev, f) then prev + [f] else prev
  }

  /** A combo-box entry: the text shown and the data attached. */
  datatype ComboItem = ComboItem(text: string, data: string)

  /** The entry for a format (youtube_downloader.py:287-291): its resolution,
      followed by the frame rate when that is truthy, carrying the format id. */
  function ItemOf(f: Format): (item: ComboItem)
    ensures item.data == f.formatId
  {
    var resolution := Resolution(f);
    ComboItem(if Truthy(f.fps) then resolution + " (" + IntToString(f.fps.value) + "fps)" else resolution, f.formatId)
  }

  /** The text of an entry is the height's numeral followed by `p`, then,
      exactly when the frame rate is truthy, by the frame rate's numeral in
      parentheses. */
  lemma ItemText(f: Format)
    ensures Resolution(f) <= ItemOf(f).text
    ensures Truthy(f.fps) <==> |ItemOf(f).text| > |Resolution(f)|
    ensures Truthy(f.fps) ==>
              ItemOf(f).text == IntToString(HeightKey(f)) + "p" + " (" + IntToString(f.fps.value) + "fps)"
    ensures !Truthy(f.fps) ==> ItemOf(f).text == IntToString(HeightKey(f)) + "p"
  {
    HeightLabelIsNumeral(HeightKey(f));
  }

  /** The entries for a run of formats, in order. */
  function Items(c: seq<Format>): (r: seq<ComboItem>)
    ensures |r| == |c| && forall k :: 0 <= k < |c| ==> r[k] == ItemOf(c[k])
  {
    MapSeq(c, ItemOf)
  }

  /** The container choices (youtube_downloader.py:294, 297). */
  function Containers(video: bool): seq<string> {
    if video then ["mp4", "mkv"] else ["mp3", "wav"]
  }

  /** What the loop adds: allowed resolutions only, each at most once, every
      one taken from the input. */
  lemma {:induction false} ChosenBasics(s: seq<Format>)
    ensures var c := ChosenFormats(s);
            (forall f :: f in c ==> f in s && Truthy(f.height) && Resolution(f) in AllowedResolutions) &&
            (forall i, j :: 0 <= i < j < |c| ==> Resolution(c[i]) != Resolution(c[j]))
  {
    if s != [] {
      var init, f := s[..|s| - 1], s[|s| - 1];
      ChosenBasics(init);
      var prev := ChosenFormats(init);
      assert forall g :: g in init ==> g in s;
      if Takes(prev, f) {
        var c := prev + [f];
        assert ChosenFormats(s) == c;
        forall i, j | 0 <= i < j < |c| ensures Resolution(c[i]) != Resolution(c[j]) {
          if j == |prev| {
            assert c[i] in prev;
          } else {
            assert c[i] == prev[i] && c[j] == prev[j];
          }
        }
      } else {
        assert ChosenFormats(s) == prev;
      }
    }
  }

  /** At most one entry per allowed resolution, so at most six entries. */
  lemma AtMostSix(s: seq<Format>)
    ensures |ChosenFormats(s)| <= 6
  {
    var c := ChosenFormats(s);
    ChosenBasics(s);
    forall i | 0 <= i < |c| ensures Resolution(c[i]) in AllowedResolutions {
      assert c[i] in c;
    }
    DistinctImagesBounded(c, Resolution, AllowedResolutions);
    assert |AllowedResolutions| == 6;
  }

  /** Some format of `s` has a truthy height and resolution `r`. */
  predicate Present(s: seq<Format>, r: string) {
    exists i :: 0 <= i < |s| && Truthy(s[i].height) && Resolution(s[i]) == r
  }

  /** The resolutions added are exactly the allowed ones present. */
  lemma {:induction false} AddedArePresent(s: seq<Format>, r: string)
    ensures r in Added(ChosenFormats(s)) <==> r in AllowedResolutions && Present(s, r)
  {
    if s != [] {
      var init, f := s[..|s| - 1], s[|s| - 1];
      AddedArePresent(init, r);
      PresentStep(s, r);
      AddedStep(s);
    }
  }

  /** A resolution is present in `s` when it is present before the last
      format or is that of the last format. */
  lemma PresentStep(s: seq<Format>, r: string)
    requires s != []
    ensures var init, f := s[..|s| - 1], s[|s| - 1];
            Present(s, r) <==> Present(init, r) || (Truthy(f.height) && Resolution(f) == r)
  {
    var init := s[..|s| - 1];
    if Present(s, r) {
      var i :| 0 <= i < |s| && Truthy(s[i].height) && Resolution(s[i]) == r;
      if i < |init| {
        assert init[i] == s[i];
      }
    }
    if Present(init, r) {
      var i :| 0 <= i < |init| && Truthy(init[i].height) && Resolution(init[i]) == r;
      assert s[i] == init[i];
    }
  }

  /** One pass of the loop adds the resolution of the last format when it
      takes that format, and nothing otherwise. */
  lemma AddedStep(s: seq<Format>)
    requires s != []
    ensures var prev, f := ChosenFormats(s[..|s| - 1]), s[|s| - 1];
            Added(ChosenFormats(s)) ==
              if Takes(prev, f)
              then Added(prev) + {Resolution(f)} else Added(prev)
  {
    var prev, f := ChosenFormats(s[..|s| - 1]), s[|s| - 1];
    if Takes(prev, f) {
      assert ChosenFormats(s) == prev + [f];
      AppendChosen(prev, f);
    } else {
      assert ChosenFormats(s) == prev;
    }
  }

  /** Index `j` holds the first format of its resolution in `s`, and that
      resolution is allowed. */
  predicate FirstOfResolution(s: seq<Format>, j: int) {
    0 <= j < |s| && Truthy(s[j].height) && Resolution(s[j]) in AllowedResolutions
    && forall i :: 0 <= i < j && Truthy(s[i].height) ==> Resolution(s[i]) != Resolution(s[j])
  }

  /** First wins: each entry comes from the first format of its resolution
      in `s`. */
  lemma {:induction false} ChosenFirstWins(s: seq<Format>)
    ensures forall f :: f in ChosenFormats(s) ==> exists j :: FirstOfResolution(s, j) && s[j] == f
  {
    if s != [] {
      var init, f := s[..|s| - 1], s[|s| - 1];
      ChosenFirstWins(init);
      var prev := ChosenFormats(init);
      forall g | g in ChosenFormats(s) ensures exists j :: FirstOfResolution(s, j) && s[j] == g {
        if g in prev {
          var j :| FirstOfResolution(init, j) && init[j] == g;
          assert forall i :: 0 <= i < j ==> s[i] == init[i];
          assert FirstOfResolution(s, j) && s[j] == g;
        } else {
          FirstOfLast(s);
        }
      }
    }
  }

  /** The last format, when the loop adds it, is the first of its resolution. */
  lemma FirstOfLast(s: seq<Format>)
    requires s != []
    requires var init, f := s[..|s| - 1], s[|s| - 1];
             Takes(ChosenFormats(init), f)
    ensures FirstOfResolution(s, |s| - 1)
  {
    var init, f := s[..|s| - 1], s[|s| - 1];
    AddedArePresent(init, Resolution(f));
    forall i | 0 <= i < |init| && Truthy(s[i].height) ensures Resolution(s[i]) != Resolution(f) {
      assert init[i] == s[i];
    }
  }

  /** Every allowed resolution present in `s` gets an entry. */
  lemma EveryAllowedPresentResolution(s: seq<Format>, i: nat)
    requires i < |s| && Truthy(s[i].height) && Resolution(s[i]) in AllowedResolutions
    ensures exists k :: 0 <= k < |ChosenFormats(s)| && Resolution(ChosenFormats(s)[k]) == Resolution(s[i])
  {
    AddedArePresent(s, Resolution(s[i]));
    AddedComesFrom(ChosenFormats(s), Resolution(s[i]));
    var g :| g in ChosenFormats(s) && Resolution(g) == Resolution(s[i]);
  }

  /** Entries come out strictly by descending height when the formats went
      in sorted by descending height. */
  lemma {:induction false} ChosenDescending(s: seq<Format>)
    requires SortedDesc(s, HeightKey)
    ensures var c := ChosenFormats(s);
            forall i, j :: 0 <= i < j < |c| ==> HeightKey(c[i]) > HeightKey(c[j])
  {
    if s != [] {
      var init, f := s[..|s| - 1], s[|s| - 1];
      assert SortedDesc(init, HeightKey) by {
        forall i, j | 0 <= i < j < |init| ensures HeightKey(init[i]) >= HeightKey(init[j]) {
          assert init[i] == s[i] && init[j] == s[j];
        }
      }
      ChosenDescending(init);
      var prev := ChosenFormats(init);
      if Takes(prev, f) {
        ChosenBasics(init);
        var c := prev + [f];
        assert ChosenFormats(s) == c;
        forall i, j | 0 <= i < j < |c| ensures HeightKey(c[i]) > HeightKey(c[j]) {
          if j == |prev| {
            var g := c[i];
            assert g in prev;
            var m :| 0 <= m < |init| && init[m] == g;
            assert s[m] == g;
            assert HeightKey(g) >= HeightKey(f);
            assert Resolution(g) != Resolution(f);
          } else {
            assert c[i] == prev[i] && c[j] == prev[j];
          }
        }
      } else {
        assert ChosenFormats(s) == prev;
      }
    }
  }

  /** The formats the page offers, in order (youtube_downloader.py:276-292). */
  function PageFormats(fs: seq<Format>): seq<Format> {
    ChosenFormats(SortDesc(Candidates(fs), HeightKey))
  }

  /** The page lists resolutions strictly from highest to lowest, and at most six. */
  lemma PageOrdered(fs: seq<Format>)
    ensures var c := PageFormats(fs);
            |c| <= 6 && forall i, j :: 0 <= i < j < |c| ==> HeightKey(c[i]) > HeightKey(c[j])
  {
    var sorted := SortDesc(Candidates(fs), HeightKey);
    SortDescSorted(Candidates(fs), HeightKey);
    ChosenDescending(sorted);
    AtMostSix(sorted);
  }

  lemma SortedCandidate(fs: seq<Format>, i: nat)
    requires i < |SortDesc(Candidates(fs), HeightKey)|
    ensures var x := SortDesc(Candidates(fs), HeightKey)[i];
            x in fs && QtCandidate(x)
  {
    var x := SortDesc(Candidates(fs), HeightKey)[i];
    assert x in multiset(SortDesc(Candidates(fs), HeightKey));
    assert x in multiset(Candidates(fs));
  }

  /** Because the sort is stable and the first format of each resolution
      wins, the entry for a height is the first video-only format of that
      height in the order yt-dlp listed the formats. */
  lemma PageChoiceIsFirstInInput(fs: seq<Format>, k: nat)
    requires k < |PageFormats(fs)|
    ensures var g := PageFormats(fs)[k];
            var w := WithKey(Candidates(fs), HeightKey, HeightKey(g));
            g in fs && QtCandidate(g) && w != [] && w[0] == g
  {
    var cands := Candidates(fs);
    var sorted := SortDesc(cands, HeightKey);
    var c := ChosenFormats(sorted);
    var g := c[k];
    var h := HeightKey(g);
    assert g in c;
    ChosenFirstWins(sorted);
    var j :| FirstOfResolution(sorted, j) && sorted[j] == g;
    SortedCandidate(fs, j);
    forall i | 0 <= i < j ensures HeightKey(sorted[i]) != h {
      SortedCandidate(fs, i);
      assert Resolution(sorted[i]) != Resolution(g);
    }
    FirstWithKey(sorted, HeightKey, h, j);
    SortDescStable(cands, HeightKey, h);
  }

  // ---------------------------------------------------------------------------
  // yt-dlp options
  // ---------------------------------------------------------------------------

  /** The options dict passed to the download logic. `extractAudio` false
      and `audioFormat` None stand for keys the dict does not have. */
  datatype QtOptions = QtOptions(format: string, outtmpl: string, extractAudio: bool, audioFormat: Option<string>)

  /** A download to start: the URL and its options. */
  datatype Job = Job(url: string, options: QtOptions)

  /** The file name pattern of a quick download. */
  const QuickTemplate: string := "%(title)s.%(ext)s"

  /** `start_quick_download` (youtube_downloader.py:299-308): nothing when the
      URL box holds only whitespace (a warning is shown instead). */
  function QuickDownload(urlText: string, downloadPath: string): Option<Job> {
    var url := Strip(urlText);
    if url == [] then None
    else Some(Job(url, QtOptions("bestvideo+bestaudio/best", PathJoin(downloadPath, QuickTemplate), false, None)))
  }

  /** Python's `f"{x}"` of an optional string: None prints as `None`. */
  function Render(x: Option<string>): string {
    match x
    case Some(s) => s
    case None => "None"
  }

  /** The options of `start_custom_download` (youtube_downloader.py:314-331)
      for the selected radio button, the data of the selected resolution
      (None when the list is empty) and the selected container. */
  function CustomDownloadOptions(video: bool, qualityId: Option<string>, fileFormat: string, downloadPath: string): QtOptions {
    if video then
      QtOptions(Render(qualityId) + "+bestaudio/best", PathJoin(downloadPath, "%(title)s." + fileFormat), false, None)
    else
      QtOptions("bestaudio", PathJoin(downloadPath, "%(title)s." + fileFormat), true, Some(fileFormat))
  }

  /** A quick download starts exactly when the URL box holds something
      besides whitespace, and then with the stripped URL, the best video and
      audio, no audio keys, and a file named after the title and the
      chosen extension directly inside the download directory. */
  lemma QuickDownloadNeedsUrl(urlText: string, downloadPath: string)
    ensures QuickDownload(urlText, downloadPath).None? <==> AllWhitespace(urlText)
    ensures QuickDownload(urlText, downloadPath).Some? ==>
              var job := QuickDownload(urlText, downloadPath).value;
              job.url == Strip(urlText) && job.url != [] && IsStripped(job.url) &&
              job.options.format == "bestvideo+bestaudio/best" &&
              !job.options.extractAudio && job.options.audioFormat == None &&
              NamesFileIn(job.options.outtmpl, downloadPath, QuickTemplate)
  {
    JoinNamesFileIn(downloadPath, QuickTemplate);
    StripDropsWhitespace(urlText);
    StripIsStripped(urlText);
    var i := LeadingWhitespace(urlText);
    var j := i + TrailingCut(urlText[i..]);
    if Strip(urlText) == [] {
      assert i == |urlText|;
      forall k | 0 <= k < |urlText| ensures IsWhitespace(urlText[k]) {
        assert urlText[k] == urlText[..i][k];
      }
    } else {
      assert !IsWhitespace(Strip(urlText)[0]);
      assert Strip(urlText)[0] == urlText[i];
    }
  }

  /** A custom video download asks for the chosen video stream merged with
      the best audio and sets no audio keys; an audio download asks for the
      best audio and sets `extract_audio` to true and `audio_format` to the
      chosen container. Either way the file name ends in `.` and the container and
      follows the download directory; when the container has no separator,
      the file lies directly inside that directory. */
  lemma CustomDownloadShape(video: bool, qualityId: Option<string>, fileFormat: string, downloadPath: string)
    ensures var o := CustomDownloadOptions(video, qualityId, fileFormat, downloadPath);
            var name := "%(title)s." + fileFormat;
            |name| <= |o.outtmpl| && o.outtmpl[|o.outtmpl| - |name|..] == name &&
            (o.outtmpl == downloadPath + name || o.outtmpl == downloadPath + "/" + name) &&
            ('/' !in fileFormat ==> NamesFileIn(o.outtmpl, downloadPath, name)) &&
            (video ==> o.format == Render(qualityId) + "+bestaudio/best" && !o.extractAudio && o.audioFormat == None) &&
            (!video ==> o.format == "bestaudio" && o.extractAudio && o.audioFormat == Some(fileFormat))
  {
    var name := "%(title)s." + fileFormat;
    var o := CustomDownloadOptions(video, qualityId, fileFormat, downloadPath);
    assert o.outtmpl == PathJoin(downloadPath, name);
    assert name[0] == '%';
    var head := if downloadPath == [] || downloadPath[|downloadPath| - 1] == '/' then downloadPath else downloadPath + "/";
    assert o.outtmpl == head + name;
    if '/' !in fileFormat {
      assert '/' !in name by {
        forall k | 0 <= k < |name| ensures name[k] != '/' {
          if k >= 10 {
            assert name[k] == fileFormat[k - 10];
          }
        }
      }
      JoinNamesFileIn(downloadPath, name);
    }
  }

  /** Every container the page offers is a plain extension, so a custom
      download always names a file directly inside the download directory. */
  lemma CustomDownloadInDirectory(video: bool, qualityId: Option<string>, fileFormat: string, downloadPath: string)
    requires fileFormat in Containers(video)
    ensures NamesFileIn(CustomDownloadOptions(video, qualityId, fileFormat, downloadPath).outtmpl,
                        downloadPath, "%(title)s." + fileFormat)
  {
    assert '/' !in fileFormat;
    CustomDownloadShape(video, qualityId, fileFormat, downloadPath);
  }

  /** Picking an entry of the page downloads that very format with the best
      audio. */
  lemma CustomDownloadOfPageEntry(fs: seq<Format>, k: nat, fileFormat: string, downloadPath: string)
    requires k < |PageFormats(fs)|
    ensures var item := Items(PageFormats(fs))[k];
            CustomDownloadOptions(true, Some(item.data), fileFormat, downloadPath).format ==
              PageFormats(fs)[k].formatId + "+bestaudio/best"
  {
  }

  // ---------------------------------------------------------------------------
  // Progress bar
  // ---------------------------------------------------------------------------

  /** The fields of a yt-dlp progress dict that the bar looks at. */
  datatype QtReport = QtReport(status: string, totalBytes: Option<int>, downloadedBytes: Option<int>)

  /** Python's `int(x)` on a number: truncation toward zero. */
  function TruncateToInt(x: real): (n: int)
    ensures x >= 0.0 ==> n as real <= x < n as real + 1.0
    ensures x < 0.0 ==> n as real - 1.0 < x <= n as real
  {
    if x >= 0.0 then x.Floor else -((-x).Floor)
  }

  /** `QProgressBar.setValue(v)` on the bar's default range [0, 100]: a
      value outside the range is ignored and the bar keeps its value. */
  function SetValue(current: int, v: int): int {
    if 0 <= v <= 100 then v else current
  }

  /** The percentage `int(percent)` that a download report asks the bar to show. */
  function ReportPercent(d: QtReport): int
    requires Truthy(d.totalBytes)
  {
    TruncateToInt((d.downloadedBytes.GetOr(0) as real / d.totalBytes.value as real) * 100.0)
  }

  /** The bar value after `on_progress_update(d)` (youtube_downloader.py:357-364). */
  function NextBarValue(current: int, d: QtReport): int {
    if d.status == "downloading" then
      if Truthy(d.totalBytes) then SetValue(current, ReportPercent(d))
      else current
    else if d.status == "finished" then SetValue(current, 100)
    else current
  }

  /** The whole percentage of `x` out of `t`, rounded down. */
  lemma PercentBounds(x: int, t: int)
    requires 0 <= x <= t && t > 0
    ensures var v := TruncateToInt((x as real / t as real) * 100.0);
            0 <= v <= 100 && v * t <= 100 * x < (v + 1) * t
  {
    var q := (x as real / t as real) * 100.0;
    ScaledRatio(x, t);
    var v := TruncateToInt(q);
    FloorScaled(q, v, t, 100 * x);
    assert 0 <= v;
    if v > 100 {
      IntScale(100, v, t);
    }
  }

  /** At least 101 percent of `t` truncates to more than 100. */
  lemma PercentAbove(x: int, t: int)
    requires t > 0 && 100 * x >= 101 * t
    ensures TruncateToInt((x as real / t as real) * 100.0) > 100
  {
    var q := (x as real / t as real) * 100.0;
    ScaledRatio(x, t);
    assert (100 * x) as real >= (101 * t) as real;
    assert (101 * t) as real == 101.0 * t as real;
    assert q >= 101.0 by {
      if q < 101.0 {
        ScaleBy(q, 101.0, t as real);
        assert false;
      }
    }
    var n := TruncateToInt(q);
    assert q < n as real + 1.0;
  }

  /** `x / t * 100` is a non-negative real that `t` scales back to `100 * x`. */
  lemma ScaledRatio(x: int, t: int)
    requires 0 <= x && t > 0
    ensures var q := (x as real / t as real) * 100.0;
            q >= 0.0 && q * t as real == (100 * x) as real
  {
    var r := x as real / t as real;
    assert r * t as real == x as real;
    assert r >= 0.0;
  }

  /** The floor `v` of `q` brackets `q * t` between `v * t` and `(v + 1) * t`. */
  lemma FloorScaled(q: real, v: int, t: int, n: int)
    requires v as real <= q < v as real + 1.0 && t > 0 && q * t as real == n as real
    ensures v * t <= n < (v + 1) * t
  {
    ScaleBy(v as real, q, t as real);
    ScaleBy(q, v as real + 1.0, t as real);
    assert (v * t) as real == v as real * t as real;
    assert ((v + 1) * t) as real == (v as real + 1.0) * t as real;
  }

  lemma ScaleBy(a: real, b: real, t: real)
    requires a <= b && t > 0.0
    ensures a * t <= b * t && (a < b ==> a * t < b * t)
  {
  }

  lemma IntScale(a: int, b: int, t: int)
    requires a < b && t > 0
    ensures a * t < b * t
  {
  }

  /** The bar moves only on a download report with a truthy total or on the
      finished report; a download report shows the whole percentage
      downloaded, rounded down, while the download is within its total, and
      leaves the bar as it was when that percentage is outside [0, 100]. A
      bar within [0, 100] stays there. */
  lemma BarValue(current: int, d: QtReport)
    ensures var v := NextBarValue(current, d);
            (v != current ==> d.status == "finished" || (d.status == "downloading" && Truthy(d.totalBytes))) &&
            (d.status == "finished" ==> v == 100) &&
            (0 <= current <= 100 ==> 0 <= v <= 100) &&
            (d.status == "downloading" && Truthy(d.totalBytes) && !(0 <= ReportPercent(d) <= 100) ==> v == current) &&
            (d.status == "downloading" && Truthy(d.totalBytes) && 0 <= d.downloadedBytes.GetOr(0) <= d.totalBytes.value ==>
               0 <= v <= 100 &&
               v * d.totalBytes.value <= 100 * d.downloadedBytes.GetOr(0) < (v + 1) * d.totalBytes.value)
  {
    if d.status == "downloading" && Truthy(d.totalBytes) && 0 <= d.downloadedBytes.GetOr(0) <= d.totalBytes.value {
      PercentBounds(d.downloadedBytes.GetOr(0), d.totalBytes.value);
    }
  }

  /** A report with more bytes downloaded than the total, by at least a
      whole percent, leaves the bar where it was. */
  lemma OverrunIgnored(current: int, d: QtReport)
    requires d.status == "downloading" && Truthy(d.totalBytes) && d.totalBytes.value > 0
    requires 100 * d.downloadedBytes.GetOr(0) >= 101 * d.totalBytes.value
    ensures NextBarValue(current, d) == current
  {
    PercentAbove(d.downloadedBytes.GetOr(0), d.totalBytes.value);
  }

  /** One pass of the page loop over `s[i]`. */
  lemma ChosenStep(s: seq<Format>, i: nat)
    requires i < |s|
    ensures var prev, f := ChosenFormats(s[..i]), s[i];
            ChosenFormats(s[..i + 1]) ==
              if Takes(prev, f)
              then prev + [f] else prev
  {
    assert s[..i + 1][..i] == s[..i] && s[..i + 1][i] == s[i];
  }

  lemma AppendChosen(c: seq<Format>, f: Format)
    ensures Items(c + [f]) == Items(c) + [ItemOf(f)]
    ensures Added(c + [f]) == Added(c) + {Resolution(f)}
  {
    assert (c + [f])[..|c|] == c && (c + [f])[|c|] == f;
    MapSeqSnoc(c, f, ItemOf);
  }

  // ---------------------------------------------------------------------------
  // The window
  // ---------------------------------------------------------------------------

  /** The parts of the `YouTubeDownloader` window this logic updates. */
  class YouTubeDownloader {
    /** The resolution combo box. */
    var qualityItems: seq<ComboItem>
    /** The container combo box. */
    var formatItems: seq<string>
    var qualityGroupVisible: bool
    var progressValue: int

    constructor ()
      ensures qualityItems == [] && formatItems == [] && progressValue == 0
    {
      qualityItems := [];
      formatItems := [];
      qualityGroupVisible := true;
      progressValue := 0;
    }

    /** The loop of youtube_downloader.py:279-292 over the sorted candidates
        `fmts`: one entry per allowed resolution, the first format met for it. */
    method AddResolutions(fmts: seq<Format>)
      requires qualityItems == []
      modifies this`qualityItems
      ensures qualityItems == Items(ChosenFormats(fmts))
    {
      var addedResolutions: set<string> := {};
      ghost var chosen: seq<Format> := [];
      var i := 0;
      while i < |fmts|
        invariant 0 <= i <= |fmts|
        invariant chosen == ChosenFormats(fmts[..i])
        invariant addedResolutions == Added(chosen)
        invariant qualityItems == Items(chosen)
        modifies this`qualityItems
      {
        var f := fmts[i];
        ChosenStep(fmts, i);
        if Truthy(f.height) {
          var resolutionLabel := Resolution(f);
          if resolutionLabel in AllowedResolutions && resolutionLabel !in addedResolutions {
            AppendChosen(chosen, f);
            qualityItems := qualityItems + [ItemOf(f)];
            addedResolutions := addedResolutions + {resolutionLabel};
            chosen := chosen + [f];
          }
        }
        i := i + 1;
      }
      assert fmts[..i] == fmts;
    }

    /** `populate_config_page` (youtube_downloader.py:266-297) for the state of
        the Video radio button and the fetched formats. */
    method PopulateConfigPage(videoChecked: bool, formats: seq<Format>)
      modifies this`qualityItems, this`formatItems, this`qualityGroupVisible
      ensures qualityGroupVisible == videoChecked
      ensures qualityItems == (if videoChecked then Items(PageFormats(formats)) else [])
      ensures formatItems == Containers(videoChecked)
    {
      qualityItems := [];
      formatItems := [];
      if videoChecked {
        qualityGroupVisible := true;
        var fmts := SortDesc(Candidates(formats), HeightKey);
        AddResolutions(fmts);
        formatItems := ["mp4", "mkv"];
      } else {
        qualityGroupVisible := false;
        formatItems := ["mp3", "wav"];
      }
    }

    /** `progress_bar.setValue(v)`: ignored outside the range [0, 100]. */
    method SetBarValue(v: int)
      modifies this`progressValue
      ensures progressValue == SetValue(old(progressValue), v)
    {
      if 0 <= v <= 100 {
        progressValue := v;
      }
    }

    /** `on_progress_update(d)`: only the bar is modelled, not the log text. */
    method OnProgressUpdate(d: QtReport)
      modifies this`progressValue
      ensures progressValue == NextBarValue(old(progressValue), d)
    {
      if d.status == "downloading" {
        if Truthy(d.totalBytes) {
          var percent := (d.downloadedBytes.GetOr(0) as real / d.totalBytes.value as real) * 100.0;
          SetBarValue(TruncateToInt(percent));
        }
      } else if d.status == "finished" {
        SetBarValue(100);
      }
    }
  }
}
