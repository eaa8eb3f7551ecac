# Ultimate YouTube video downloader — a Dafny model of its core

This project models the decision logic of a small Python YouTube downloader
built on yt-dlp, and proves properties of it:

- **URL validation** (`Utils`, `validate_youtube_url`): the four
  `re.match` patterns for watch, short-link, playlist and mobile URLs.
- **File-name sanitising** (`Utils`, `sanitize_filename`): replace
  `< > : " / \ | ? *` with `_`, strip whitespace (Python's `str.isspace`
  set), cut to 255 characters.
- **Duration formatting** (`Utils`, `format_duration`): `HH:MM:SS` / `MM:SS`
  with Python's floor division; zero is `"Unknown"`.
- **The quality catalog** (`Catalog`, `get_available_qualities`):
  - muxed formats are grouped under `"{height}p"`;
  - the largest file backs each label, and ties keep the earlier format;
  - the first audio-only format of maximal bitrate backs "Audio Only";
  - labels are ordered by numeric height, highest first, with "Audio Only" last.
  - The dict is a map plus its insertion order. The sort is a stable descending sort (`Sorting`).
- **One download session** (`Session`, `download_video`, `cancel_download`):
  - the format selector and output template derived from the label;
  - the progress hook;
  - the `is_downloading` flag;
  - the worker, which reports exactly one completion and clears the flag on every path.
  - The worker thread is sequentialised into its entry (setting the flag) and its body. The yt-dlp run, the video title and a failing directory creation are inputs.
- **The Qt window** (`QtConfig`, `youtube_downloader.py`):
  - the resolution list and containers of the configuration page;
  - the options of the quick and the custom download;
  - the progress bar.

Python semantics are stated explicitly:
- `str()` and `int()` of integers are decimal numerals with a round trip;
- `dict.get` defaults are used when a key is missing;
- truthiness;
- `max` returns the first maximum;
- `list.sort(reverse=True)` is stable;
- `int(float)` truncates toward zero;
- `posixpath.join`.

Where the code differs from its own comments or from what a caller would expect, the model follows the code:
- **Second start.** A second `download_video` while a session runs is silently ignored. It does not report an "already running" error (`Session.VideoDownloader.DownloadVideo`).
- **When the flag is set.** The flag is set by the worker thread, not by `download_video`, so two calls before the worker starts both launch a worker (`Session.UnguardedBeforeEntry`).
- **Cancelling.** `cancel_download` only clears the flag. The worker goes on, reports progress, and later reports its completion.
- **Unknown total.** When the total is unknown or zero, the hook makes no progress call at all; it does not report byte counters.
- **Cut after strip.** A sanitised name is cut after stripping, so it may end in whitespace (`Utils.SanitizeMayEndInSpace`).
- **Frame rate.** The comment at youtube_downloader.py:286 says formats with a higher frame rate are preferred for a resolution. The code keeps the first format of each height in yt-dlp's order (`QtConfig.PageChoiceIsFirstInInput`). yt-dlp lists formats from worst to best, so the page offers the weakest format of each height.
- **Audio container.** The custom audio download (youtube_downloader.py:326-331) sets only the keys `extract_audio` and `audio_format`, and downloader_logic.py:15-23 passes the dict to yt-dlp with only the progress hook added. Unlike src/downloader.py:171-176, no `FFmpegExtractAudio` postprocessor is built, so whether yt-dlp converts the audio to the chosen container is not established by this code. Likewise the video container chosen only becomes the extension in the output template; no merge format is requested. The model states the dict (`QtConfig.CustomDownloadShape`), not what yt-dlp does with it.
- **Tkinter quality list.** src/gui.py:160 passes the info dict, not the URL, to `get_available_qualities`, whose first step re-fetches the metadata from its argument. yt-dlp expects a URL string there, so the fetch fails, `get_video_info` returns None and the list is `[]`. The model takes the format list as input (`Catalog.GetAvailableQualities`) and does not model this call.

## Model

| member | source | states |
|---|---|---|
| Utils.ValidateYoutubeUrl | src/utils.py:5-25 | `validate_youtube_url`: some pattern matches at the start of the URL; what it accepts and rejects is stated by `ValidateAgreesWithRecognizer` and the `Validate…` lemmas below |
| Utils.ValidateAgreesWithRecognizer | src/utils.py:15-25 | the four optional-scheme/optional-subdomain patterns accept exactly what a deterministic recogniser accepts: drop `http(s)://`, then `www.` or `m.`, then a host path that subdomain allows, then an id character |
| Utils.ValidateExtends | src/utils.py:22-24 | `re.match` only anchors at the start: appending any text to an accepted URL keeps it accepted |
| Utils.ValidateAcceptsPrefixThenId | src/utils.py:15-24 | every literal prefix a pattern allows, followed by an id character, is accepted |
| Utils.ValidateAcceptsWatchUrl | src/utils.py:16 | `https://www.youtube.com/watch?v=abc123` is accepted |
| Utils.ValidateNeedsKnownStart | src/utils.py:15-25 | an accepted URL starts with `http://`, `https://`, `www.`, `m.`, `youtube.com/` or `youtu.be/` |
| Utils.ValidateNeedsKnownHost | src/utils.py:15-25 | after its scheme an accepted URL continues with `w`, `m` or `y` |
| Utils.ValidateRejectsBadFirstChar | src/utils.py:15-25 | empty text, or text starting with a character other than h, w, m, y, is rejected |
| Utils.ValidateRejectsOtherHost | src/utils.py:15-25 | `https://example.com/video` is rejected |
| Utils.ValidateRejectsEmptyId | src/utils.py:16 | the watch URL `youtube.com/watch?v=`, whose id is empty, is rejected |
| Utils.ValidateRejectsOtherScheme | src/utils.py:15-25 | `ftp://youtube.com/watch?v=abc` is rejected |
| Utils.ReplaceInvalidChars | src/utils.py:37-38 | the result has the input's length; position by position, an invalid character becomes `_` and any other character is kept |
| Utils.SanitizeFilename | src/utils.py:37-40 | at most 255 characters, and a prefix of the stripped replaced name, of its full length when that is at most 255 |
| Utils.SanitizeHasNoInvalidChars | src/utils.py:37-40 | none of the nine invalid characters survives |
| Utils.SanitizeKeepsCharacters | src/utils.py:37-40 | character k of the result is the title's character at offset (stripped leading whitespace + k), or `_` where that one is invalid |
| Utils.SanitizeIdempotent | src/utils.py:37-40 | when no cut is needed, sanitising twice equals sanitising once |
| Utils.SanitizeOnlyReplaces | src/utils.py:37-40 | a name of at most 255 characters without whitespace at its ends only has its invalid characters replaced (`A/B:C*D?` gives `A_B_C_D_`) |
| Utils.ReplaceKeepsClean | src/utils.py:38 | a name without invalid characters is left unchanged by the substitution |
| Utils.ReplaceKeepsStripped | src/utils.py:38-39 | the substitution keeps a stripped name stripped, since `_` is not whitespace |
| Utils.SanitizeMayEndInSpace | src/utils.py:39-40 | for a long clean stripped name with whitespace at position 254, the result is its first 255 characters, ends in whitespace, and changes when sanitised again |
| Utils.SanitizeMovesUnstripped | src/utils.py:39-40 | sanitising changes a clean name of at most 255 characters with whitespace at an end |
| Utils.SanitizeEndsInSpaceExample | src/utils.py:39-40 | 254 letters, a space and a letter sanitise to 255 characters ending in the space, and not idempotently |
| Utils.Pad2 | src/utils.py:91-93 | `{n:02d}` is an all-digit numeral of value n, with at least two digits, exactly two below 100, and no leading zero when longer |
| Utils.FormatDuration | src/utils.py:83-84 | the text is "Unknown" exactly when the duration is 0 |
| Utils.FormatDurationLayout | src/utils.py:86-93 | three colon-separated fields exactly when the duration is at least an hour, two otherwise; minutes and seconds have two digits |
| Utils.DurationFields | src/utils.py:86-93 | the fields are the padded hours (when positive), minutes and seconds of Python's floor division |
| Utils.HoursMinutesSeconds | src/utils.py:86-88 | minutes and seconds lie in [0, 60) and recombine with the hours to the duration |
| Utils.FormatDurationRoundTrip | src/utils.py:83-93 | parsing the text of a non-zero duration gives it back (for negative durations, its remainder modulo one hour) |
| Common.NatToString | src/downloader.py:70 | `str(n)` starts with a digit, and with no leading zero unless it is "0" |
| Common.NatToStringDigits | src/downloader.py:70 | `str(n)` is all digits |
| Common.DigitsValueOfNatToString | src/downloader.py:95 | reading `str(n)` back gives n |
| Common.IntToString | src/downloader.py:70 | `str(i)` starts with `-` exactly when i is negative |
| Common.ParseIntOfIntToString | src/downloader.py:95 | `int(str(i)) == i` |
| Common.IntToStringInjective | src/downloader.py:70 | distinct integers have distinct numerals |
| Common.RemoveChar | src/downloader.py:95 | `s.replace(c, '')` contains no `c`, is no longer than s, and is s when c does not occur |
| Common.RemoveCharAppend | src/downloader.py:95 | removing a character distributes over concatenation |
| Common.Strip | src/utils.py:39 | `str.strip()`: the result is no longer than the text; `StripIsStripped`, `StripDropsWhitespace` and `StripOfStripped` state what it removes |
| Common.LeadingWhitespaceIsWhitespace | src/utils.py:39 | the characters `strip` drops in front are all whitespace |
| Common.TrailingCutIsWhitespace | src/utils.py:39 | the characters `strip` drops at the back are all whitespace |
| Common.StripIsStripped | src/utils.py:39 | the result of `strip` neither starts nor ends with whitespace |
| Common.StripDropsWhitespace | src/utils.py:39 | `strip` returns a slice of its input, with only whitespace before and after it |
| Common.StripOfStripped | src/utils.py:39 | `strip` leaves a stripped string unchanged |
| Common.MapSeq | youtube_downloader.py:291 | a map keeps the length and applies the function position by position |
| Common.PathJoin | src/downloader.py:130 | `os.path.join(dir, name)` as on POSIX; `JoinStaysInDirectory` and `JoinNamesFileIn` state where the joined path points |
| Common.Basename | src/downloader.py:130 | a basename contains no separator |
| Common.JoinStaysInDirectory | src/downloader.py:130 | joining a separator-free name to a directory gives a path whose basename is the name and whose head is the directory, with at most one `/` added |
| Common.JoinNamesFileIn | src/downloader.py:130 | joining a relative, separator-free name names that file directly inside the directory |
| Common.BasenameAfterSeparator | src/downloader.py:130 | the basename of a separator-free name after a separator is that name |
| Formats.HeightLabel | src/downloader.py:70 | `f"{height}p"` has at least two characters and ends in `p` |
| Formats.HeightLabelIsNumeral | src/downloader.py:70 | the label is `str(height)` followed by `p` |
| Formats.IntToStringHasNoP | src/downloader.py:95 | a numeral contains no `p` |
| Formats.HeightLabelNumeral | src/downloader.py:132 | `label.replace('p', '')` is the numeral of the height |
| Formats.LabelHeightOfHeightLabel | src/downloader.py:95 | the sort key `int(label.replace('p', ''))` gives back the height |
| Formats.HeightLabelInjective | src/downloader.py:70-74 | two heights share a label exactly when they are equal |
| Formats.AudioOnlyIsNotAHeightLabel | src/downloader.py:86-94 | "Audio Only" is never a height label |
| Sorting.InsertDesc | src/downloader.py:95 | insertion adds exactly one occurrence of the element |
| Sorting.SortDesc | src/downloader.py:95 | the sort is a permutation of its input |
| Sorting.InsertDescSorted | src/downloader.py:95 | inserting into a descending sequence keeps it descending |
| Sorting.SortDescSorted | src/downloader.py:95 | the keys of the sorted sequence never increase |
| Sorting.SortDescStable | youtube_downloader.py:277 | among elements of equal key, the sort keeps their input order |
| Sorting.SortDescNoDuplicates | src/downloader.py:94-95 | sorting a duplicate-free sequence gives a duplicate-free one |
| Sorting.WithKeyAppend | youtube_downloader.py:277 | the elements of one key of a concatenation are those of each part, in order |
| Sorting.FirstWithKey | youtube_downloader.py:277 | the first element with a key heads the elements of that key |
| Sorting.DistinctImagesBounded | youtube_downloader.py:273-285 | elements with pairwise distinct images in a set are no more numerous than the set |
| Catalog.QualityMap.Put | src/downloader.py:75 | `d[k] = v` stores v under k, appends a new key to the insertion order and keeps an old key's place |
| Catalog.VideoEntryOf | src/downloader.py:75-81 | the stored dict of a muxed format carries its height and its size, a missing size read as 0 |
| Catalog.AudioEntryOf | src/downloader.py:86-91 | the stored dict of the best audio carries its size and bitrate, missing values read as 0 |
| Catalog.Replaces | src/downloader.py:74 | an incoming size displaces the stored one exactly when it is strictly larger (a zero size never does) |
| Catalog.AddFormat | src/downloader.py:66-81 | one loop pass keeps the dict's key order consistent with its keys |
| Catalog.AddFormatAt | src/downloader.py:66-81 | after one pass a label is present iff it was or the format is a candidate with that label, and its entry is the format's exactly when that format displaces the stored one |
| Catalog.HasCandidateSnoc | src/downloader.py:66-69 | a candidate of a list is one of its prefix or its last format |
| Catalog.VideoMapOf | src/downloader.py:64-81 | the dict after the loop over the formats, built by `AddFormat` pass by pass; `VideoMapKeys`, `VideoMapBacking` and `HeightBacking` state its keys and entries |
| Catalog.VideoMapKeys | src/downloader.py:66-81 | the dict's keys are exactly the labels of muxed formats with truthy height, each mapped to an entry of that height |
| Catalog.VideoMapBacking | src/downloader.py:66-81 | each label's entry comes from the first of the largest files with that label |
| Catalog.BackingLast | src/downloader.py:74-81 | a last format that takes a label over is the largest file of that label, strictly larger than the earlier ones |
| Catalog.LastOutgrows | src/downloader.py:74 | a last candidate strictly larger than every earlier one of its label backs it |
| Catalog.BackingKept | src/downloader.py:74 | a last format that does not displace the entry leaves its backing index unchanged |
| Catalog.ReplacesAsWritten | src/downloader.py:74 | the comparison over raw values raises TypeError exactly when the incoming size is truthy and the stored one is None; otherwise it agrees with `Replaces` |
| Catalog.StoredNoneSizeRaises | src/downloader.py:74 | a size of 1000 arriving after a stored None raises, where the intended comparison would replace |
| Catalog.AudioFormats | src/downloader.py:83 | the filter keeps exactly the audio-only formats |
| Catalog.BestAudioIndex | src/downloader.py:85 | `max(key=abr)` is the first index of maximal bitrate, a missing bitrate read as 0 |
| Catalog.FirstMaxOfAudioFormats | src/downloader.py:83-85 | the first maximum of the filtered list is the first best audio-only format of the whole list |
| Catalog.BestAudioAtHead | src/downloader.py:83-85 | a first format that is the filtered list's first maximum is the best audio-only format of the whole list |
| Catalog.BestAudioShift | src/downloader.py:83-85 | the best audio-only format of the tail stays the best of the whole list, one index later, when the head is not better |
| Catalog.FullMap | src/downloader.py:83-91 | adding "Audio Only" keeps the dict consistent |
| Catalog.Without | src/downloader.py:94 | the filter keeps exactly the labels other than the excluded one |
| Catalog.WithoutAbsent | src/downloader.py:94 | filtering out an absent label changes nothing |
| Catalog.WithoutAppend | src/downloader.py:94 | the filter distributes over concatenation |
| Catalog.GetAvailableQualities | src/downloader.py:63-101 | the loop fills the dict pass by pass and the method returns the sorted labels plus "Audio Only" when present |
| Catalog.SortedQualities | src/downloader.py:93-101 | the returned list; `CatalogOrdered`, `CatalogHeightLabels`, `CatalogAudioLast`, `HeightBacking` and `AudioBacking` state its order and what backs each label |
| Catalog.VideoOrderLabels | src/downloader.py:66-81 | the loop's keys are height labels of candidates, every candidate's label is among them, and "Audio Only" is not |
| Catalog.CatalogVideoKeys | src/downloader.py:86-94 | the labels other than "Audio Only" are the loop's keys in insertion order; "Audio Only" is present iff an audio-only format exists |
| Catalog.CatalogParts | src/downloader.py:93-101 | the catalog is the loop's keys sorted by height, then "Audio Only" if some audio-only format exists |
| Catalog.AudioFormatsNonEmpty | src/downloader.py:83-84 | the filtered list is non-empty iff some format is audio-only |
| Catalog.CatalogHeightLabels | src/downloader.py:66-70 | a label other than "Audio Only" is offered iff some muxed format with truthy height has it |
| Catalog.CatalogAudioLast | src/downloader.py:83-99 | "Audio Only" is offered iff some format is audio-only, and then it is last |
| Catalog.AudioBacking | src/downloader.py:83-91 | "Audio Only" is backed by the first audio-only format of maximal bitrate |
| Catalog.FullMapAt | src/downloader.py:86 | adding "Audio Only" leaves every height label's entry as it was |
| Catalog.HeightBacking | src/downloader.py:66-81 | each offered height label is backed by the first of the largest muxed files of that height |
| Catalog.SortedHeights | src/downloader.py:94-96 | the sorted height labels are distinct, are height labels, exclude "Audio Only" and strictly descend by height |
| Catalog.CatalogOrdered | src/downloader.py:93-101 | the catalog has no duplicate; height labels strictly descend by numeric height and all come before "Audio Only" |
| Catalog.OrderedAppend | src/downloader.py:96-99 | appending "Audio Only" to strictly descending height labels keeps the catalog ordered and duplicate-free |
| Catalog.StrictlyByHeight | src/downloader.py:95 | distinct height labels sorted by height are strictly descending |
| Catalog.ExampleLabels | src/downloader.py:70 | 720 and 1080 label as "720p" and "1080p" and read back |
| Catalog.ExampleOrder | src/downloader.py:66-81 | a 720p then a 1080p format are inserted in that order |
| Catalog.CatalogExample | src/downloader.py:63-101 | the catalog of a 720p and a 1080p muxed format is `["1080p", "720p"]`, numeric and not string order |
| Session.FormatSelector | src/downloader.py:128-133 | the format selector for a label; `SelectorForCatalogLabel` and `SelectorCapsHeight` state it |
| Session.OutputTemplate | src/downloader.py:128-134 | the output template for a sanitized title; `TemplateInDirectory` states where it points |
| Session.OptionsFor | src/downloader.py:157-176 | the yt-dlp options of a run; `AudioOnlyExtractsMp3` and `OptionsOnlyWithInfo` state its postprocessors and selector |
| Session.SelectorForCatalogLabel | src/downloader.py:128-133 | each offered label yields `bestaudio/best` or `best[height<=H]/best` with H the label's height |
| Session.SelectorCapsHeight | src/downloader.py:131-133 | a height label's selector is `best[height<=`, the numeral of the height, `]/best`, and the number reads back as the height |
| Session.TemplateInDirectory | src/downloader.py:126-134 | the output template names `<title>.%(ext)s` directly inside the output directory |
| Session.AudioOnlyExtractsMp3 | src/downloader.py:171-176 | audio is extracted only for "Audio Only", always to 192 kbit/s MP3 |
| Session.ProgressHook | src/downloader.py:136-156 | the callback is called iff there is one, the status is "downloading" and the effective total is positive; it then gets that total |
| Session.ProgressPercentage | src/downloader.py:139-153 | the percentage times the total is 100 times the downloaded bytes, and lies in [0, 100] while no more than the total is downloaded |
| Session.EffectiveTotal | src/downloader.py:139 | `total_bytes or total_bytes_estimate`; `EffectiveTotalPrefersExact` states when each is used |
| Session.EffectiveTotalPrefersExact | src/downloader.py:139 | the estimate is used only when the exact total is missing or zero |
| Session.ProgressCalls | src/downloader.py:136-156 | there are at most as many callback calls as reports, and none without a callback |
| Session.ProgressCallsWellFormed | src/downloader.py:137-153 | every callback call has status "downloading" and a positive total |
| Session.WorkerTrace | src/downloader.py:114-190 | the calls one worker run makes; `ExactlyOneCompletion`, `CompletionMessages` and `OptionsOnlyWithInfo` state them, and `VideoDownloader.WorkerRun` is proved to produce them |
| Session.ExactlyOneCompletion | src/downloader.py:114-190 | with a completion callback the worker reports exactly once, successfully iff the directory, the metadata and the download all succeeded; without one it reports nothing |
| Session.CompletionMessages | src/downloader.py:121-188 | the completion message in each of the four outcomes |
| Session.OptionsOnlyWithInfo | src/downloader.py:118-179 | yt-dlp runs only once the title is known, with the selector for the chosen quality; no progress is reported otherwise |
| Session.VideoDownloader.constructor | src/downloader.py:7-9 | no session running and no worker |
| Session.VideoDownloader.DownloadVideo | src/downloader.py:192-195 | a worker is recorded only when no session runs; the flag is left unchanged |
| Session.VideoDownloader.WorkerEnter | src/downloader.py:116 | the worker sets the flag |
| Session.VideoDownloader.WorkerRun | src/downloader.py:118-190 | the worker's calls are those of `WorkerTrace`, and the flag is cleared on every path |
| Session.VideoDownloader.CancelDownload | src/downloader.py:197-199 | cancelling clears the flag and nothing else |
| Session.GuardedSession | src/downloader.py:114-199 | once the worker has entered, a second request is ignored; after it finishes a new one is accepted |
| Session.UnguardedBeforeEntry | src/downloader.py:192-195 | before the worker has entered, a second request replaces the recorded worker |
| QtConfig.Candidates | youtube_downloader.py:276 | the filter keeps exactly the video-only formats with truthy height |
| QtConfig.Added | youtube_downloader.py:274-292 | the resolution of every added format is in the added set |
| QtConfig.AddedComesFrom | youtube_downloader.py:292 | every added resolution is that of an added format |
| QtConfig.ItemOf | youtube_downloader.py:287-291 | an entry carries the format id as its data |
| QtConfig.ItemText | youtube_downloader.py:287-289 | an entry's text is the height's numeral and `p`, followed by ` (<fps>fps)` exactly when the fps is truthy |
| QtConfig.Items | youtube_downloader.py:291 | one entry per added format, in order |
| QtConfig.ChosenFormats | youtube_downloader.py:279-292 | the formats the loop takes, in order; `ChosenBasics`, `AtMostSix`, `AddedArePresent`, `ChosenFirstWins` and `ChosenDescending` state them, and `YouTubeDownloader.AddResolutions` is proved to add their entries |
| QtConfig.Containers | youtube_downloader.py:294-297 | mp4 and mkv for video, mp3 and wav for audio; `CustomDownloadInDirectory` uses that none has a separator |
| QtConfig.ChosenBasics | youtube_downloader.py:279-292 | added formats come from the input, have a truthy height and an allowed resolution, and no resolution is added twice |
| QtConfig.AtMostSix | youtube_downloader.py:273-285 | at most six entries |
| QtConfig.AddedArePresent | youtube_downloader.py:279-292 | a resolution is added iff it is allowed and some format with a truthy height has it |
| QtConfig.PresentStep | youtube_downloader.py:279-292 | a resolution is present in a list iff it is present in the prefix or is that of the truthy-height last format |
| QtConfig.AddedStep | youtube_downloader.py:285-292 | one pass adds the format's resolution exactly when it takes the format |
| QtConfig.ChosenFirstWins | youtube_downloader.py:285-292 | each entry comes from the first format of its resolution |
| QtConfig.FirstOfLast | youtube_downloader.py:285-292 | a last format the loop adds is the first of its resolution |
| QtConfig.EveryAllowedPresentResolution | youtube_downloader.py:279-292 | every allowed resolution present in the input gets an entry |
| QtConfig.ChosenDescending | youtube_downloader.py:277-292 | input sorted by descending height gives entries in strictly descending height |
| QtConfig.PageFormats | youtube_downloader.py:276-292 | the formats the page offers; `PageOrdered`, `PageChoiceIsFirstInInput` and `CustomDownloadOfPageEntry` state them |
| QtConfig.PageOrdered | youtube_downloader.py:276-292 | the page lists at most six resolutions, strictly from highest to lowest |
| QtConfig.SortedCandidate | youtube_downloader.py:276-277 | every element of the sorted list is a video-only candidate of the input |
| QtConfig.PageChoiceIsFirstInInput | youtube_downloader.py:276-292 | the entry for a height is the first video-only format of that height in yt-dlp's order |
| QtConfig.QuickDownload | youtube_downloader.py:299-308 | the job `start_quick_download` starts, if any; `QuickDownloadNeedsUrl` states it |
| QtConfig.QuickDownloadNeedsUrl | youtube_downloader.py:299-308 | a quick download starts iff the URL box holds a non-whitespace character; the job then has the stripped text as URL, `bestvideo+bestaudio/best`, no audio keys, and a template naming `%(title)s.%(ext)s` directly inside the download directory |
| QtConfig.CustomDownloadOptions | youtube_downloader.py:314-331 | the options of `start_custom_download`; `CustomDownloadShape`, `CustomDownloadInDirectory` and `CustomDownloadOfPageEntry` state them |
| QtConfig.CustomDownloadShape | youtube_downloader.py:311-331 | video asks for the chosen stream plus the best audio and sets no audio keys; audio asks for `bestaudio` and sets `extract_audio` to true and `audio_format` to the container; the template is the download directory, at most one `/`, then `%(title)s.<container>`, and names that file inside the directory when the container has no `/` |
| QtConfig.CustomDownloadInDirectory | youtube_downloader.py:294-331 | with a container the page offers, the custom download names `%(title)s.<container>` directly inside the download directory |
| QtConfig.CustomDownloadOfPageEntry | youtube_downloader.py:315-321 | picking entry k downloads that format's id plus the best audio |
| QtConfig.TruncateToInt | youtube_downloader.py:360 | `int(x)` truncates toward zero |
| QtConfig.PercentBounds | youtube_downloader.py:359-360 | the bar value v lies in [0, 100] and v·t ≤ 100·x < (v+1)·t |
| QtConfig.ScaledRatio | youtube_downloader.py:359 | `x / t * 100` is non-negative and scales back to `100 * x` |
| QtConfig.FloorScaled | youtube_downloader.py:360 | the floor of the percentage brackets `100 * x` between multiples of the total |
| QtConfig.SetValue | youtube_downloader.py:202 | `QProgressBar.setValue` on the default range [0, 100]; `BarValue` and `OverrunIgnored` state its effect |
| QtConfig.ReportPercent | youtube_downloader.py:359-360 | `int(percent)` of a report; `PercentBounds` brackets it |
| QtConfig.NextBarValue | youtube_downloader.py:357-364 | the bar after one report; `BarValue` and `OverrunIgnored` state it |
| QtConfig.BarValue | youtube_downloader.py:357-364 | the bar moves only on "finished" (to 100) or on "downloading" with a truthy total (to the whole percentage, rounded down, while within the total); a percentage outside [0, 100] leaves the bar as it was, so a bar in [0, 100] stays there |
| QtConfig.PercentAbove | youtube_downloader.py:359-360 | at least 101 percent of the total truncates to more than 100 |
| QtConfig.OverrunIgnored | youtube_downloader.py:357-360 | a report of at least 101 percent of the total leaves the bar unchanged |
| QtConfig.ChosenStep | youtube_downloader.py:279-292 | one pass of the loop appends the format exactly when it takes it |
| QtConfig.AppendChosen | youtube_downloader.py:291-292 | appending a format appends its entry and adds its resolution |
| QtConfig.YouTubeDownloader.constructor | youtube_downloader.py:178-202 | both combo boxes start empty, and the bar at 0, the value `execute_download` gives it before any report (youtube_downloader.py:337) |
| QtConfig.YouTubeDownloader.AddResolutions | youtube_downloader.py:279-292 | the loop fills the empty resolution box with the entries of the formats it takes |
| QtConfig.YouTubeDownloader.PopulateConfigPage | youtube_downloader.py:266-297 | the group is shown iff Video is checked; the resolution box holds the page entries (or nothing for audio); the container box holds mp4/mkv or mp3/wav |
| QtConfig.YouTubeDownloader.SetBarValue | youtube_downloader.py:360 | the bar takes the value only when it lies in [0, 100] |
| QtConfig.YouTubeDownloader.OnProgressUpdate | youtube_downloader.py:355-364 | the bar takes the value `NextBarValue` gives for the report |

## Left out

- Fetching metadata (`get_video_info`, src/downloader.py:11-47) and yt-dlp itself are out of scope. The title, the formats and the run are inputs, and `get_available_qualities` is modelled from the format list. Its re-fetch at src/downloader.py:59-61 is not modelled.
- Threads are not modelled. The worker is sequentialised into entry and body, so interleavings beyond the modelled entry race are not covered.
- Directory creation (`ensure_directory_exists`) is an input: whether it raised, and with what message. `format_bytes`, `get_default_download_path`, printing and the Qt log text are left out.
- Floating point is modelled as exact reals: percentages, bitrates and `int()` of the bar value. IEEE rounding is not modelled.
- Catalog.VideoEntryOf: `fps` is taken as an integer. A fractional frame rate, and the way it would be printed in the Qt label, are not modelled.
- Catalog.BestAudioIndex: `max` over formats whose `abr` is present but None would raise TypeError. The model reads every missing bitrate as 0.
- Catalog.LabelKey: a label that is not a numeral after removing `p` would raise ValueError. Only height labels reach the key, so 0 is used there.
- Catalog.VideoEntryOf: `format_id` is taken as always present.
- QtConfig.ItemOf: `f['format_id']` at youtube_downloader.py:291 would raise KeyError when the id is missing. The model takes it as always present.
- Session.ProgressHook: an exception raised by the progress callback is caught and printed by the source. The model takes callbacks as not raising.
- Session.ExactlyOneCompletion: the completion callback is taken as not raising. If `completion_callback(True, …)` at src/downloader.py:182 raises, the handler at src/downloader.py:184-188 calls it again with `False` and "Download failed: …", so the source then makes two completion calls, the second a failure. `Session.WorkerTrace` does not model this.
- Session.DownloadOptions: the fixed `quiet`, `no_warnings` and `http_headers` options are omitted.
- Utils.IsIdChar: `\w` is taken as ASCII letters, digits and underscore. Python's `\w` also matches other Unicode word characters.
- QtConfig.PercentBounds: the bracket holds for exact reals. Under IEEE doubles `x / t * 100` can fall just below a whole number, so `int()` gives one less: 29 of 100 gives `int(28.999999999999996) == 28`.
- QtConfig.NextBarValue: `d.get('downloaded_bytes', 0)` returns None when yt-dlp reports the key with None, and the division then raises TypeError inside the Qt slot. The model reads it as 0. A value too large for a C `int` in PyQt's `setValue` is not modelled either.
- Formats.Format: each optional field is an `Option`, so a key present with the value None reads like a missing key, and `fmt.get(k, d)` gives `d` where Python gives None. The Findings row covers `filesize`; `Catalog.BestAudioIndex` covers `abr`.
- Session.ProgressHook: `d.get('speed', 0)` and `d.get('eta', 0)` return None when yt-dlp reports those keys with None, which is common early in a download; the callback dict then carries None, where the model gives 0.0 and 0. `downloaded_bytes` reported as None makes the division raise, the handler swallows it and no callback is made, where the model calls back with 0%. `total_bytes_estimate` may be a float; the model takes an integer.
- Utils.FormatDuration: takes an integer. `format_duration(None)`, which the Tkinter window passes for a video without a duration, gives "Unknown" because None is falsy. A float duration raises ValueError at the `{:02d}` fields. Neither is modelled.
- Common.PathJoin: `os.path.join` and `os.path.basename` are modelled as on POSIX (`posixpath`). On Windows, where the application also runs, `ntpath` also treats `\` and drive letters as separators and roots.
- `execute_download`, the page switching and the rest of the Qt window are not modelled.

## Findings

| source | as written | input that shows it | evidently intended | confidence | as-written member | corrected member |
|---|---|---|---|---|---|---|
| src/downloader.py:74 | `filesize and filesize > quality_map[k].get('filesize', 0)` compares with a stored `None` when yt-dlp reported `filesize: None` for the first format of a height, raising TypeError out of `get_available_qualities` | two muxed 720p formats, the first with `filesize` None, the second with 1000 | a missing size counts as 0, so the second format replaces the first | not executed | Catalog.ReplacesAsWritten | Catalog.Replaces |
