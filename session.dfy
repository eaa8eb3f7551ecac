/** One download session of `VideoDownloader` (src/downloader.py:103-199):
    the yt-dlp options derived from the chosen quality label, the mapping of
    yt-dlp's progress reports onto the caller's progress callback, the
    `is_downloading` flag and the worker that reports exactly one completion.
    The worker thread is sequentialised: its entry and its body are separate
    steps, and the yt-dlp engine is an input. */
module Session {
  import opened Common
  import opened Utils
  import opened Formats
  import opened Catalog

  // ---------------------------------------------------------------------------
  // yt-dlp options
  // ---------------------------------------------------------------------------

  /** One entry of `ydl_opts['postprocessors']`. */
  datatype Postprocessor = Postprocessor(key: string, preferredCodec: string, preferredQuality: string)

  /** The options handed to yt-dlp; the fixed `quiet`, `no_warnings` and
      `http_headers` entries and the progress hook itself are left implicit. */
  datatype DownloadOptions = DownloadOptions(format: string, outtmpl: string, postprocessors: seq<Postprocessor>)

  /** The format selector for a quality label (src/downloader.py:128-134):
      best audio for "Audio Only", otherwise the best file no taller than the
      label's number. */
  function FormatSelector(quality: string): string {
    if quality == AudioOnly then "bestaudio/best"
    else "best[height<=" + RemoveChar(quality, 'p') + "]/best"
  }

  /** `os.path.join(output_path, f"{title}.%(ext)s")` for an already
      sanitised title. */
  function OutputTemplate(outputPath: string, title: string): string {
    PathJoin(outputPath, title + ".%(ext)s")
  }

  const ExtractMp3 := Postprocessor("FFmpegExtractAudio", "mp3", "192")

  /** `ydl_opts` as built by the worker (src/downloader.py:158-176). */
  function OptionsFor(quality: string, outputPath: string, title: string): DownloadOptions {
    DownloadOptions(FormatSelector(quality), OutputTemplate(outputPath, title),
                    if quality == AudioOnly then [ExtractMp3] else [])
  }

  /** Every label the catalog offers turns into a meaningful selector:
      "Audio Only" into `bestaudio/best`, a height label into a cap on that
      very height. */
  lemma SelectorForCatalogLabel(fs: seq<Format>, l: string)
    requires l in SortedQualities(fs)
    ensures l == AudioOnly ==> FormatSelector(l) == "bestaudio/best"
    ensures l != AudioOnly ==> FormatSelector(l) == "best[height<=" + IntToString(LabelKey(l)) + "]/best"
  {
    if l != AudioOnly {
      CatalogOrdered(fs);
      HeightLabelNumeral(LabelKey(l));
    }
  }

  /** The selector of a height label caps the height at exactly that height:
      reading the number back from the selector gives `h`. */
  lemma SelectorCapsHeight(h: int)
    ensures var prefix, suffix := "best[height<=", "]/best";
            var sel := FormatSelector(HeightLabel(h));
            |sel| == |prefix| + |IntToString(h)| + |suffix| &&
            sel[..|prefix|] == prefix && sel[|sel| - |suffix|..] == suffix &&
            ParseInt(sel[|prefix|..|sel| - |suffix|]) == Some(h)
  {
    var prefix, suffix := "best[height<=", "]/best";
    var n := IntToString(h);
    AudioOnlyIsNotAHeightLabel(h);
    HeightLabelNumeral(h);
    ParseIntOfIntToString(h);
    assert FormatSelector(HeightLabel(h)) == prefix + n + suffix;
    ThreeParts(prefix, n, suffix);
  }

  /** The three parts of a concatenation can be cut back out of it. */
  lemma ThreeParts(a: string, b: string, c: string)
    ensures var s := a + b + c;
            |s| == |a| + |b| + |c| && s[..|a|] == a && s[|s| - |c|..] == c && s[|a|..|s| - |c|] == b
  {
    var s := a + b + c;
    assert s[..|a|] == a;
    assert s[|s| - |c|..] == c;
    assert s[|a|..|s| - |c|] == b;
  }

  /** The file lands directly in the chosen directory: the sanitised title
      has no separator, so the template's last path component is
      `<title>.%(ext)s` and what precedes it is the directory. */
  lemma TemplateInDirectory(outputPath: string, rawTitle: string)
    ensures var title := SanitizeFilename(rawTitle);
            var p := OutputTemplate(outputPath, title);
            Basename(p) == title + ".%(ext)s" &&
            (p[..|p| - |title + ".%(ext)s"|] == outputPath || p[..|p| - |title + ".%(ext)s"|] == outputPath + "/")
  {
    var title := SanitizeFilename(rawTitle);
    var name := title + ".%(ext)s";
    SanitizeHasNoInvalidChars(rawTitle);
    assert '/' !in name by {
      forall k | 0 <= k < |name| ensures name[k] != '/' {
        if k < |title| {
          assert name[k] == title[k];
          assert !IsInvalidFilenameChar(title[k]);
        }
      }
    }
    JoinStaysInDirectory(outputPath, name);
  }

  /** Only "Audio Only" extracts audio, always to 192 kbit/s MP3
      (src/downloader.py:171-176). */
  lemma AudioOnlyExtractsMp3(quality: string, outputPath: string, title: string)
    ensures var o := OptionsFor(quality, outputPath, title);
            (o.postprocessors != [] <==> quality == AudioOnly) &&
            (forall p :: p in o.postprocessors ==>
               p.key == "FFmpegExtractAudio" && p.preferredCodec == "mp3" && p.preferredQuality == "192")
  {
  }

  // ---------------------------------------------------------------------------
  // Progress reporting
  // ---------------------------------------------------------------------------

  /** The dict yt-dlp passes to a progress hook. */
  datatype HookReport = HookReport(
    status: string,
    totalBytes: Option<int>,
    totalBytesEstimate: Option<int>,
    downloadedBytes: Option<int>,
    speed: Option<real>,
    eta: Option<int>)

  /** The dict handed to the caller's progress callback. */
  datatype Progress = Progress(percentage: real, downloadedBytes: int, totalBytes: int, speed: real, eta: int, status: string)

  /** `d.get('total_bytes') or d.get('total_bytes_estimate', 0)`. */
  function EffectiveTotal(d: HookReport): int {
    if Truthy(d.totalBytes) then d.totalBytes.value else d.totalBytesEstimate.GetOr(0)
  }

  /** `progress_hook(d)` (src/downloader.py:136-156): what it hands to the
      progress callback, if anything. */
  function ProgressHook(hasCallback: bool, d: HookReport): (r: Option<Progress>)
    ensures r.Some? <==> hasCallback && d.status == "downloading" && EffectiveTotal(d) > 0
    ensures r.Some? ==> r.value.totalBytes == EffectiveTotal(d) && r.value.status == "downloading"
  {
    if hasCallback && d.status == "downloading" then
      var total := EffectiveTotal(d);
      var downloaded := d.downloadedBytes.GetOr(0);
      if total > 0 then
        Some(Progress((downloaded as real / total as real) * 100.0, downloaded, total,
                      d.speed.GetOr(0.0), d.eta.GetOr(0), "downloading"))
      else None
    else None
  }

  /** The percentage is the downloaded share of the effective total: it
      scales back to the byte count, and lies in [0, 100] whenever no more
      than the total has been downloaded. */
  lemma ProgressPercentage(hasCallback: bool, d: HookReport)
    requires ProgressHook(hasCallback, d).Some?
    ensures var p := ProgressHook(hasCallback, d).value;
            p.downloadedBytes == d.downloadedBytes.GetOr(0) &&
            p.percentage * p.totalBytes as real == 100.0 * p.downloadedBytes as real &&
            (0 <= p.downloadedBytes <= p.totalBytes ==> 0.0 <= p.percentage <= 100.0)
  {
    var p := ProgressHook(hasCallback, d).value;
    var t, x := p.totalBytes as real, p.downloadedBytes as real;
    assert p.percentage == (x / t) * 100.0;
    if 0 <= p.downloadedBytes <= p.totalBytes {
      assert x / t <= 1.0 by {
        assert x <= t;
      }
    }
  }

  /** The estimate is used only when the exact total is missing or zero. */
  lemma EffectiveTotalPrefersExact(d: HookReport)
    ensures d.totalBytes.Some? && d.totalBytes.value != 0 ==> EffectiveTotal(d) == d.totalBytes.value
    ensures !Truthy(d.totalBytes) ==> EffectiveTotal(d) == d.totalBytesEstimate.GetOr(0)
  {
  }

  /** The progress callback calls made for a run of hook reports. */
  function ProgressCalls(hasCallback: bool, reports: seq<HookReport>): (r: seq<Progress>)
    ensures |r| <= |reports|
    ensures !hasCallback ==> r == []
  {
    if reports == [] then []
    else
      (match ProgressHook(hasCallback, reports[0]) case Some(p) => [p] case None => [])
      + ProgressCalls(hasCallback, reports[1..])
  }

  /** Every callback call reports a download in progress with a positive total. */
  lemma {:induction false} ProgressCallsWellFormed(hasCallback: bool, reports: seq<HookReport>)
    ensures forall p :: p in ProgressCalls(hasCallback, reports) ==>
              p.status == "downloading" && p.totalBytes > 0
  {
    if reports != [] {
      ProgressCallsWellFormed(hasCallback, reports[1..]);
    }
  }

  // ---------------------------------------------------------------------------
  // The worker and the session flag
  // ---------------------------------------------------------------------------

  /** The arguments of `download_video`; the callbacks are represented by
      whether they were given. */
  datatype Request = Request(url: string, quality: string, outputPath: string,
                             hasProgressCallback: bool, hasCompletionCallback: bool)

  /** What yt-dlp does when asked to download: the progress reports it emits
      and whether it then returns or raises with a message. */
  datatype EngineRun = Finished(reports: seq<HookReport>) | Raised(reports: seq<HookReport>, message: string)

  /** Everything outside the model that the worker depends on:
      whether creating the output directory raised (and with what message),
      the title `get_video_info` returns (None when it fails), and the run. */
  datatype Environment = Environment(directoryError: Option<string>, title: Option<string>, run: EngineRun)

  /** One call of `completion_callback(success, message)`. */
  datatype Completion = Completion(success: bool, message: string)

  /** What one worker run produces: the options passed to yt-dlp (if it got
      that far), the progress calls and the completion calls. */
  datatype Trace = Trace(options: Option<DownloadOptions>, progress: seq<Progress>, completions: seq<Completion>)

  const InfoFailure := "Failed to get video information"

  /** `completion_callback(...)` if one was given. */
  function Complete(req: Request, c: Completion): seq<Completion> {
    if req.hasCompletionCallback then [c] else []
  }

  /** The body of `download_thread` (src/downloader.py:114-190), from the
      directory creation to the completion call, with the exception handler. */
  function WorkerTrace(req: Request, env: Environment): Trace {
    if env.directoryError.Some? then
      Trace(None, [], Complete(req, Completion(false, "Download failed: " + env.directoryError.value)))
    else if env.title.None? then
      Trace(None, [], Complete(req, Completion(false, InfoFailure)))
    else
      var title := SanitizeFilename(env.title.value);
      var options := OptionsFor(req.quality, req.outputPath, title);
      var progress := ProgressCalls(req.hasProgressCallback, env.run.reports);
      match env.run
      case Finished(_) =>
        Trace(Some(options), progress, Complete(req, Completion(true, "Successfully downloaded: " + title)))
      case Raised(_, msg) =>
        Trace(Some(options), progress, Complete(req, Completion(false, "Download failed: " + msg)))
  }

  /** With a completion callback the worker reports exactly once, and says
      success exactly when yt-dlp returned; without one it reports nothing. */
  lemma ExactlyOneCompletion(req: Request, env: Environment)
    ensures var t := WorkerTrace(req, env);
            |t.completions| == (if req.hasCompletionCallback then 1 else 0) &&
            (req.hasCompletionCallback ==>
               (t.completions[0].success <==>
                  env.directoryError.None? && env.title.Some? && env.run.Finished?))
  {
  }

  /** The message of the completion call in each of the four outcomes. */
  lemma CompletionMessages(req: Request, env: Environment)
    requires req.hasCompletionCallback
    ensures var c := WorkerTrace(req, env).completions[0];
            (env.directoryError.Some? ==> c.message == "Download failed: " + env.directoryError.value) &&
            (env.directoryError.None? && env.title.None? ==> c.message == InfoFailure) &&
            (env.directoryError.None? && env.title.Some? && env.run.Finished? ==>
               c.message == "Successfully downloaded: " + SanitizeFilename(env.title.value)) &&
            (env.directoryError.None? && env.title.Some? && env.run.Raised? ==>
               c.message == "Download failed: " + env.run.message)
  {
  }

  /** yt-dlp is invoked only once the title is known, and with the options
      for the requested quality; progress is reported only then. */
  lemma OptionsOnlyWithInfo(req: Request, env: Environment)
    ensures var t := WorkerTrace(req, env);
            (t.options.Some? <==> env.directoryError.None? && env.title.Some?) &&
            (t.options.None? ==> t.progress == []) &&
            (t.options.Some? ==> t.options.value.format == FormatSelector(req.quality))
  {
  }

  /** `VideoDownloader`: the session flag and the last worker launched. */
  class VideoDownloader {
    var isDownloading: bool
    /** `self.download_thread`, represented by the request it was started for. */
    var downloadThread: Option<Request>

    constructor ()
      ensures !isDownloading && downloadThread == None
    {
      isDownloading := false;
      downloadThread := None;
    }

    /** `download_video` (src/downloader.py:192-195): starts a worker only
        when no session is marked as running. The flag itself is set by the
        worker, not here. */
    method DownloadVideo(req: Request)
      modifies this
      ensures isDownloading == old(isDownloading)
      ensures downloadThread == if old(isDownloading) then old(downloadThread) else Some(req)
    {
      if !isDownloading {
        downloadThread := Some(req);
      }
    }

    /** The first statement of the worker (src/downloader.py:116). */
    method WorkerEnter()
      modifies this
      ensures isDownloading && downloadThread == old(downloadThread)
    {
      isDownloading := true;
    }

    /** The rest of the worker, up to and including its `finally`
        (src/downloader.py:118-190): the calls it makes, and the flag cleared
        on every path. */
    method WorkerRun(req: Request, env: Environment) returns (trace: Trace)
      modifies this
      ensures trace == WorkerTrace(req, env)
      ensures !isDownloading && downloadThread == old(downloadThread)
    {
      var options: Option<DownloadOptions> := None;
      var progress: seq<Progress> := [];
      var completions: seq<Completion> := [];
      if env.directoryError.Some? {
        completions := Complete(req, Completion(false, "Download failed: " + env.directoryError.value));
      } else if env.title.None? {
        completions := Complete(req, Completion(false, InfoFailure));
      } else {
        var title := SanitizeFilename(env.title.value);
        var formatSelector := FormatSelector(req.quality);
        var outputTemplate := OutputTemplate(req.outputPath, title);
        var postprocessors := if req.quality == AudioOnly then [ExtractMp3] else [];
        options := Some(DownloadOptions(formatSelector, outputTemplate, postprocessors));
        progress := ProgressCalls(req.hasProgressCallback, env.run.reports);
        if env.run.Finished? {
          completions := Complete(req, Completion(true, "Successfully downloaded: " + title));
        } else {
          completions := Complete(req, Completion(false, "Download failed: " + env.run.message));
        }
      }
      isDownloading := false;
      trace := Trace(options, progress, completions);
    }

    /** `cancel_download` (src/downloader.py:197-199): clears the flag and
        nothing else; a running worker is not stopped. */
    method CancelDownload()
      modifies this
      ensures !isDownloading && downloadThread == old(downloadThread)
    {
      isDownloading := false;
    }
  }

  /** A sequentialised session: a second request made while the worker runs
      is ignored, and once the worker has finished a new one is accepted. A
      second request made before the worker has entered would also be
      accepted, which is why the flag is only a guard in this order. */
  method GuardedSession(first: Request, second: Request, third: Request, env: Environment)
    returns (secondIgnored: bool, thirdStarted: bool, trace: Trace)
    ensures secondIgnored && thirdStarted
    ensures trace == WorkerTrace(first, env)
  {
    var d := new VideoDownloader();
    d.DownloadVideo(first);
    d.WorkerEnter();
    d.DownloadVideo(second);
    secondIgnored := d.downloadThread == Some(first);
    trace := d.WorkerRun(first, env);
    d.DownloadVideo(third);
    thirdStarted := d.downloadThread == Some(third);
  }

  /** Before the worker has entered, the flag is still clear, so a second
      request replaces the recorded worker and would start another thread. */
  method UnguardedBeforeEntry(first: Request, second: Request) returns (started: Option<Request>)
    ensures started == Some(second)
  {
    var d := new VideoDownloader();
    d.DownloadVideo(first);
    d.DownloadVideo(second);
    started := d.downloadThread;
  }
}
