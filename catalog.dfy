/** `VideoDownloader.get_available_qualities` (src/downloader.py:63-101): the
    list of quality labels offered for a video, built from its format records.
    Muxed formats (video and audio) are grouped by height under `"{h}p"`, the
    largest file of each height backing its label; the best audio-only format
    by bitrate backs "Audio Only"; labels come out by height, highest first,
    with "Audio Only" last. */
module Catalog {
  import opened Common
  import opened Formats
  import opened Sorting

  /** A value of `quality_map`. */
  datatype QualityEntry =
    | VideoEntry(formatId: string, height: int, ext: string, filesize: nat, fps: int)
    | AudioEntry(formatId: string, ext: string, filesize: nat, abr: real)

  /** A Python dict from labels to entries: its contents and the order in
      which its keys were first inserted. */
  datatype QualityMap = QualityMap(entries: map<string, QualityEntry>, order: seq<string>) {

    /** The order lists every key exactly once. */
    predicate Valid() {
      NoDuplicates(order) && (forall k :: k in entries ==> k in order) && (forall k :: k in order ==> k in entries)
    }

    /** `d[k] = v`: a new key goes to the end of the order, an old one keeps its place. */
    function Put(k: string, v: QualityEntry): (r: QualityMap)
      requires Valid()
      ensures r.Valid() && r.entries == entries[k := v]
      ensures k in entries ==> r.order == order
      ensures k !in entries ==> r.order == order + [k]
    {
      QualityMap(entries[k := v], if k in entries then order else order + [k])
    }
  }

  const EmptyMap := QualityMap(map[], [])

  /** A format that gets a height label: muxed, with a truthy height. */
  predicate VideoCandidate(f: Format) {
    IsMuxed(f) && Truthy(f.height)
  }

  /** A candidate whose label is `k`. */
  predicate LabelledCandidate(f: Format, k: string) {
    VideoCandidate(f) && HeightLabel(f.height.value) == k
  }

  /** Some format of `fs` is a candidate labelled `k`. */
  predicate HasCandidate(fs: seq<Format>, k: string) {
    exists i :: 0 <= i < |fs| && LabelledCandidate(fs[i], k)
  }

  /** The dict stored for a muxed format (src/downloader.py:75-81). */
  function VideoEntryOf(f: Format): (e: QualityEntry)
    requires f.height.Some?
    ensures e.VideoEntry? && e.height == f.height.value && e.filesize == FileSize(f)
  {
    VideoEntry(f.formatId, f.height.value, f.ext.GetOr("mp4"), FileSize(f), f.fps.GetOr(0))
  }

  /** The dict stored for the chosen audio format (src/downloader.py:86-91). */
  function AudioEntryOf(f: Format): (e: QualityEntry)
    ensures e.AudioEntry? && e.filesize == FileSize(f) && e.abr == Abr(f)
  {
    AudioEntry(f.formatId, f.ext.GetOr("mp3"), FileSize(f), Abr(f))
  }

  /** Whether an incoming file size displaces the stored one: only a truthy
      size strictly larger than it. A missing size counts as 0. */
  function Replaces(incoming: nat, stored: nat): (b: bool)
    ensures b <==> incoming > stored
  {
    incoming != 0 && incoming > stored
  }

  /** One pass of the loop body (src/downloader.py:66-81). */
  function AddFormat(qm: QualityMap, f: Format): (r: QualityMap)
    requires qm.Valid()
    ensures r.Valid()
  {
    if VideoCandidate(f) then
      var key := HeightLabel(f.height.value);
      if key !in qm.entries || Replaces(FileSize(f), qm.entries[key].filesize) then
        qm.Put(key, VideoEntryOf(f))
      else qm
    else qm
  }

  /** `quality_map` once the loop has seen every format of `fs`. */
  function VideoMapOf(fs: seq<Format>): (r: QualityMap)
    ensures r.Valid()
  {
    if fs == [] then EmptyMap else AddFormat(VideoMapOf(fs[..|fs| - 1]), fs[|fs| - 1])
  }

  /** What one loop pass does to the entry under label `k`. */
  lemma AddFormatAt(qm: QualityMap, f: Format, k: string)
    requires qm.Valid()
    ensures k in AddFormat(qm, f).entries <==> k in qm.entries || LabelledCandidate(f, k)
    ensures k in AddFormat(qm, f).entries ==>
              AddFormat(qm, f).entries[k] ==
                (if LabelledCandidate(f, k) && (k !in qm.entries || Replaces(FileSize(f), qm.entries[k].filesize))
                 then VideoEntryOf(f) else qm.entries[k])
  {
  }

  /** A candidate of `fs` is one of its prefix or its last format. */
  lemma HasCandidateSnoc(fs: seq<Format>, k: string)
    requires fs != []
    ensures HasCandidate(fs, k) <==> HasCandidate(fs[..|fs| - 1], k) || LabelledCandidate(fs[|fs| - 1], k)
  {
    var init := fs[..|fs| - 1];
    if HasCandidate(fs, k) {
      var i :| 0 <= i < |fs| && LabelledCandidate(fs[i], k);
      if i < |init| {
        assert init[i] == fs[i];
      }
    }
    if HasCandidate(init, k) {
      var i :| 0 <= i < |init| && LabelledCandidate(init[i], k);
      assert fs[i] == init[i];
    }
  }

  /** The map's keys are exactly the labels of the candidates, each backed
      by an entry of that height. */
  lemma {:induction false} VideoMapKeys(fs: seq<Format>, k: string)
    ensures k in VideoMapOf(fs).entries <==> HasCandidate(fs, k)
    ensures k in VideoMapOf(fs).entries ==>
              VideoMapOf(fs).entries[k].VideoEntry? && HeightLabel(VideoMapOf(fs).entries[k].height) == k
  {
    if fs != [] {
      var init, f := fs[..|fs| - 1], fs[|fs| - 1];
      VideoMapKeys(init, k);
      HasCandidateSnoc(fs, k);
      AddFormatAt(VideoMapOf(init), f, k);
    }
  }

  /** Index `j` of `fs` backs label `k`: a candidate labelled `k` whose file
      is as large as any other such candidate's and strictly larger than
      those of the earlier ones. */
  predicate IsBacking(fs: seq<Format>, k: string, j: int) {
    0 <= j < |fs| && LabelledCandidate(fs[j], k)
    && (forall i :: 0 <= i < |fs| && LabelledCandidate(fs[i], k) ==> FileSize(fs[i]) <= FileSize(fs[j]))
    && (forall i :: 0 <= i < j && LabelledCandidate(fs[i], k) ==> FileSize(fs[i]) < FileSize(fs[j]))
  }

  /** The entry under each height label is the first of the largest files of
      that height: ties and missing sizes keep the earlier format. */
  lemma {:induction false} VideoMapBacking(fs: seq<Format>, k: string)
    requires k in VideoMapOf(fs).entries
    ensures exists j :: IsBacking(fs, k, j) && VideoMapOf(fs).entries[k] == VideoEntryOf(fs[j])
    decreases |fs|, 1
  {
    var init, f := fs[..|fs| - 1], fs[|fs| - 1];
    var m0 := VideoMapOf(init);
    VideoMapKeys(init, k);
    AddFormatAt(m0, f, k);
    if LabelledCandidate(f, k) && (k !in m0.entries || Replaces(FileSize(f), m0.entries[k].filesize)) {
      BackingLast(fs, k);
    } else {
      VideoMapBacking(init, k);
      var j :| IsBacking(init, k, j) && m0.entries[k] == VideoEntryOf(init[j]);
      BackingKept(fs, k, j);
    }
  }

  /** The last format takes label `k` over: it backs it. */
  lemma BackingLast(fs: seq<Format>, k: string)
    requires fs != []
    requires var init, f := fs[..|fs| - 1], fs[|fs| - 1];
             LabelledCandidate(f, k) && (k !in VideoMapOf(init).entries ||
             Replaces(FileSize(f), VideoMapOf(init).entries[k].filesize))
    ensures IsBacking(fs, k, |fs| - 1) && VideoMapOf(fs).entries[k] == VideoEntryOf(fs[|fs| - 1])
    decreases |fs|, 0
  {
    var init, f := fs[..|fs| - 1], fs[|fs| - 1];
    var m0 := VideoMapOf(init);
    AddFormatAt(m0, f, k);
    VideoMapKeys(init, k);
    if k in m0.entries {
      VideoMapBacking(init, k);
      var j :| IsBacking(init, k, j) && m0.entries[k] == VideoEntryOf(init[j]);
      assert FileSize(init[j]) < FileSize(f);
    }
    assert fs == init + [f];
    LastOutgrows(init, f, k);
  }

  /** A last candidate larger than every earlier one of its label backs it. */
  lemma LastOutgrows(init: seq<Format>, f: Format, k: string)
    requires LabelledCandidate(f, k)
    requires forall i :: 0 <= i < |init| && LabelledCandidate(init[i], k) ==> FileSize(init[i]) < FileSize(f)
    ensures IsBacking(init + [f], k, |init|)
  {
    var fs := init + [f];
    forall i | 0 <= i < |init| && LabelledCandidate(fs[i], k) ensures FileSize(fs[i]) < FileSize(f) {
      assert fs[i] == init[i];
    }
  }

  /** The last format leaves label `k` alone: the backing index stays. */
  lemma BackingKept(fs: seq<Format>, k: string, j: nat)
    requires fs != []
    requires var init, f := fs[..|fs| - 1], fs[|fs| - 1];
             k in VideoMapOf(init).entries && IsBacking(init, k, j) &&
             VideoMapOf(init).entries[k] == VideoEntryOf(init[j]) &&
             !(LabelledCandidate(f, k) && Replaces(FileSize(f), VideoMapOf(init).entries[k].filesize))
    ensures IsBacking(fs, k, j) && VideoMapOf(fs).entries[k] == VideoEntryOf(fs[j])
  {
    var init, f := fs[..|fs| - 1], fs[|fs| - 1];
    var m0 := VideoMapOf(init);
    AddFormatAt(m0, f, k);
    assert fs[j] == init[j];
    forall i | 0 <= i < |fs| && LabelledCandidate(fs[i], k) ensures FileSize(fs[i]) <= FileSize(fs[j]) {
      if i < |init| {
        assert init[i] == fs[i];
      }
    }
    forall i | 0 <= i < j && LabelledCandidate(fs[i], k) ensures FileSize(fs[i]) < FileSize(fs[j]) {
      assert init[i] == fs[i];
    }
  }

  // ---------------------------------------------------------------------------
  // The file-size comparison as written
  // ---------------------------------------------------------------------------

  /** Outcome of `filesize and filesize > stored` in Python. */
  datatype Comparison = Compared(replaced: bool) | RaisesTypeError

  /** The test of src/downloader.py:74 over the raw dict values, where `None`
      is a `filesize` that yt-dlp reported as None (so the `.get` defaults do
      not apply). A stored None compared with a truthy size raises. */
  function ReplacesAsWritten(incoming: Option<nat>, stored: Option<nat>): (r: Comparison)
    ensures r.RaisesTypeError? <==> Truthy(incoming) && stored.None?
    ensures r.Compared? ==> (r.replaced <==> Replaces(incoming.GetOr(0), stored.GetOr(0)))
  {
    if incoming.None? || incoming.value == 0 then Compared(false)
    else if stored.None? then RaisesTypeError
    else Compared(incoming.value > stored.value)
  }

  /** Two muxed 720p formats, the first reported without a size and the second
      with 1000 bytes: the comparison for the second raises TypeError, which
      escapes `get_available_qualities`. */
  lemma StoredNoneSizeRaises()
    ensures ReplacesAsWritten(Some(1000), None) == RaisesTypeError
    ensures Replaces(1000, 0)
  {
  }

  // ---------------------------------------------------------------------------
  // Best audio
  // ---------------------------------------------------------------------------

  /** `[fmt for fmt in formats if vcodec == 'none' and acodec != 'none']`. */
  function AudioFormats(fs: seq<Format>): (r: seq<Format>)
    ensures forall x :: x in r <==> x in fs && IsAudioOnly(x)
  {
    if fs == [] then [] else (if IsAudioOnly(fs[0]) then [fs[0]] else []) + AudioFormats(fs[1..])
  }

  /** Index `k` is the first of maximal `abr` in `a`. */
  predicate FirstMaxAbr(a: seq<Format>, k: int) {
    0 <= k < |a|
    && (forall j :: 0 <= j < |a| ==> Abr(a[j]) <= Abr(a[k]))
    && (forall j :: 0 <= j < k ==> Abr(a[j]) < Abr(a[k]))
  }

  /** `max(a, key=lambda x: x.get('abr', 0))`: a left-to-right scan that
      moves on only to a strictly larger bitrate. */
  function BestAudioIndex(a: seq<Format>): (k: nat)
    requires a != []
    ensures FirstMaxAbr(a, k)
  {
    if |a| == 1 then 0
    else
      var k := BestAudioIndex(a[..|a| - 1]);
      assert forall j :: 0 <= j < |a| - 1 ==> a[..|a| - 1][j] == a[j];
      if Abr(a[|a| - 1]) > Abr(a[k]) then |a| - 1 else k
  }

  /** Index `j` of `fs` is the first audio-only format of maximal `abr`. */
  predicate FirstBestAudio(fs: seq<Format>, j: int) {
    0 <= j < |fs| && IsAudioOnly(fs[j])
    && (forall i :: 0 <= i < |fs| && IsAudioOnly(fs[i]) ==> Abr(fs[i]) <= Abr(fs[j]))
    && (forall i :: 0 <= i < j && IsAudioOnly(fs[i]) ==> Abr(fs[i]) < Abr(fs[j]))
  }

  /** The first maximum of the filtered list is the first maximum among the
      audio-only formats of the whole list. */
  lemma {:induction false} FirstMaxOfAudioFormats(fs: seq<Format>, k: nat)
    requires FirstMaxAbr(AudioFormats(fs), k)
    ensures exists j :: FirstBestAudio(fs, j) && fs[j] == AudioFormats(fs)[k]
  {
    var a, t := AudioFormats(fs), fs[1..];
    var at := AudioFormats(t);
    if IsAudioOnly(fs[0]) {
      assert a == [fs[0]] + at;
      if k == 0 {
        BestAudioAtHead(fs);
      } else {
        assert FirstMaxAbr(at, k - 1) by {
          assert forall j :: 0 <= j < |at| ==> at[j] == a[j + 1];
        }
        FirstMaxOfAudioFormats(t, k - 1);
        var j :| FirstBestAudio(t, j) && t[j] == at[k - 1];
        assert fs[j + 1] == t[j] == a[k];
        assert Abr(a[0]) < Abr(a[k]);
        BestAudioShift(fs, j);
      }
    } else {
      assert a == at;
      FirstMaxOfAudioFormats(t, k);
      var j :| FirstBestAudio(t, j) && t[j] == at[k];
      BestAudioShift(fs, j);
    }
  }

  lemma BestAudioAtHead(fs: seq<Format>)
    requires fs != [] && IsAudioOnly(fs[0]) && FirstMaxAbr(AudioFormats(fs), 0)
    ensures FirstBestAudio(fs, 0) && AudioFormats(fs)[0] == fs[0]
  {
    var a := AudioFormats(fs);
    assert a == [fs[0]] + AudioFormats(fs[1..]);
    forall i | 0 <= i < |fs| && IsAudioOnly(fs[i]) ensures Abr(fs[i]) <= Abr(fs[0]) {
      assert fs[i] in a;
    }
  }

  lemma BestAudioShift(fs: seq<Format>, j: nat)
    requires fs != [] && FirstBestAudio(fs[1..], j)
    requires IsAudioOnly(fs[0]) ==> Abr(fs[0]) < Abr(fs[j + 1])
    ensures FirstBestAudio(fs, j + 1) && fs[j + 1] == fs[1..][j]
  {
    var t := fs[1..];
    forall i | 0 <= i < |fs| && IsAudioOnly(fs[i]) ensures Abr(fs[i]) <= Abr(fs[j + 1]) {
      if i > 0 {
        assert fs[i] == t[i - 1];
      }
    }
    forall i | 0 <= i < j + 1 && IsAudioOnly(fs[i]) ensures Abr(fs[i]) < Abr(fs[j + 1]) {
      if i > 0 {
        assert fs[i] == t[i - 1];
      }
    }
  }

  // ---------------------------------------------------------------------------
  // The whole catalog
  // ---------------------------------------------------------------------------

  /** `quality_map` after the audio entry (src/downloader.py:83-91). */
  function FullMap(fs: seq<Format>): (r: QualityMap)
    ensures r.Valid()
  {
    var qm := VideoMapOf(fs);
    var audio := AudioFormats(fs);
    if audio == [] then qm else qm.Put(AudioOnly, AudioEntryOf(audio[BestAudioIndex(audio)]))
  }

  /** `[k for k in keys if k != x]`. */
  function Without(s: seq<string>, x: string): (r: seq<string>)
    ensures forall y :: y in r <==> y in s && y != x
  {
    if s == [] then [] else (if s[0] == x then [] else [s[0]]) + Without(s[1..], x)
  }

  lemma {:induction false} WithoutAbsent(s: seq<string>, x: string)
    requires x !in s
    ensures Without(s, x) == s
  {
    if s != [] {
      assert x !in s[1..];
      WithoutAbsent(s[1..], x);
    }
  }

  lemma {:induction false} WithoutAppend(s: seq<string>, t: seq<string>, x: string)
    ensures Without(s + t, x) == Without(s, x) + Without(t, x)
  {
    if s == [] {
      assert s + t == t;
    } else {
      assert (s + t)[1..] == s[1..] + t;
      WithoutAppend(s[1..], t, x);
    }
  }

  /** The sort key `int(x.replace('p', ''))`. Every key it is applied to is a
      height label (VideoOrderLabels, CatalogOrdered), for which it is the height itself. */
  function LabelKey(l: string): int {
    LabelHeight(l).GetOr(0)
  }

  /** `sorted_qualities` (src/downloader.py:93-101). */
  function SortedQualities(fs: seq<Format>): seq<string> {
    var qm := FullMap(fs);
    SortDesc(Without(qm.order, AudioOnly), LabelKey) + (if AudioOnly in qm.entries then [AudioOnly] else [])
  }

  /** `get_available_qualities` over the format list: the dict is filled in
      place by the loop, then the labels are sorted. */
  method GetAvailableQualities(formats: seq<Format>) returns (qualities: seq<string>)
    ensures qualities == SortedQualities(formats)
  {
    var qualityMap := EmptyMap;
    var i := 0;
    while i < |formats|
      invariant 0 <= i <= |formats|
      invariant qualityMap == VideoMapOf(formats[..i])
    {
      var fmt := formats[i];
      assert formats[..i + 1][..i] == formats[..i];
      if VideoCandidate(fmt) {
        var qualityKey := HeightLabel(fmt.height.value);
        var filesize := FileSize(fmt);
        if qualityKey !in qualityMap.entries || (filesize != 0 && filesize > qualityMap.entries[qualityKey].filesize) {
          qualityMap := qualityMap.Put(qualityKey, VideoEntryOf(fmt));
        }
      }
      i := i + 1;
    }
    assert formats[..i] == formats;
    var audioFormats := AudioFormats(formats);
    if audioFormats != [] {
      var bestAudio := audioFormats[BestAudioIndex(audioFormats)];
      qualityMap := qualityMap.Put(AudioOnly, AudioEntryOf(bestAudio));
    }
    var videoQualities := Without(qualityMap.order, AudioOnly);
    videoQualities := SortDesc(videoQualities, LabelKey);
    qualities := videoQualities;
    if AudioOnly in qualityMap.entries {
      qualities := qualities + [AudioOnly];
    }
  }

  /** A label of the form `"{h}p"`, whose sort key is `h`. */
  predicate IsHeightLabel(l: string) {
    l == HeightLabel(LabelKey(l))
  }

  /** The keys the loop inserts are height labels, and "Audio Only" is not
      among them. */
  lemma VideoOrderLabels(fs: seq<Format>)
    ensures forall l :: l in VideoMapOf(fs).order ==> IsHeightLabel(l) && HasCandidate(fs, l)
    ensures forall l :: HasCandidate(fs, l) ==> l in VideoMapOf(fs).order
    ensures AudioOnly !in VideoMapOf(fs).order
  {
    forall l | l in VideoMapOf(fs).order ensures IsHeightLabel(l) && HasCandidate(fs, l) {
      VideoMapKeys(fs, l);
      var h := VideoMapOf(fs).entries[l].height;
      LabelHeightOfHeightLabel(h);
    }
    forall l | HasCandidate(fs, l) ensures l in VideoMapOf(fs).order {
      VideoMapKeys(fs, l);
    }
    if AudioOnly in VideoMapOf(fs).order {
      VideoMapKeys(fs, AudioOnly);
      AudioOnlyIsNotAHeightLabel(VideoMapOf(fs).entries[AudioOnly].height);
    }
  }

  /** The labels before "Audio Only" are the loop's keys in their insertion order. */
  lemma CatalogVideoKeys(fs: seq<Format>)
    ensures Without(FullMap(fs).order, AudioOnly) == VideoMapOf(fs).order
    ensures AudioOnly in FullMap(fs).entries <==> AudioFormats(fs) != []
  {
    var order := VideoMapOf(fs).order;
    VideoOrderLabels(fs);
    WithoutAbsent(order, AudioOnly);
    if AudioFormats(fs) != [] {
      WithoutAppend(order, [AudioOnly], AudioOnly);
      assert Without([AudioOnly], AudioOnly) == [];
      assert order + [] == order;
    }
  }

  /** Descending keys of distinct height labels are strictly descending. */
  lemma StrictlyByHeight(s: seq<string>)
    requires SortedDesc(s, LabelKey) && NoDuplicates(s)
    requires forall l :: l in s ==> IsHeightLabel(l)
    ensures forall i, j :: 0 <= i < j < |s| ==> LabelKey(s[i]) > LabelKey(s[j])
  {
    forall i, j | 0 <= i < j < |s| ensures LabelKey(s[i]) > LabelKey(s[j]) {
      assert s[i] in s && s[j] in s;
      assert LabelKey(s[i]) >= LabelKey(s[j]);
    }
  }

  /** The catalog is the sorted height labels, then "Audio Only" when some
      audio-only format exists. */
  lemma CatalogParts(fs: seq<Format>)
    ensures SortedQualities(fs) == SortDesc(VideoMapOf(fs).order, LabelKey) +
                           (if AudioFormats(fs) != [] then [AudioOnly] else [])
  {
    CatalogVideoKeys(fs);
  }

  /** Some format is audio-only exactly when the filtered list is non-empty. */
  lemma AudioFormatsNonEmpty(fs: seq<Format>)
    ensures AudioFormats(fs) != [] <==> exists i :: 0 <= i < |fs| && IsAudioOnly(fs[i])
  {
    if exists i :: 0 <= i < |fs| && IsAudioOnly(fs[i]) {
      var i :| 0 <= i < |fs| && IsAudioOnly(fs[i]);
      assert fs[i] in AudioFormats(fs);
    }
    if AudioFormats(fs) != [] {
      var x := AudioFormats(fs)[0];
      assert x in fs;
    }
  }

  /** Height labels in the catalog come exactly from the muxed formats with a
      truthy height: video-only and audio-only formats never give one. */
  lemma CatalogHeightLabels(fs: seq<Format>, l: string)
    ensures l in SortedQualities(fs) && l != AudioOnly <==> HasCandidate(fs, l)
  {
    CatalogParts(fs);
    VideoOrderLabels(fs);
    var sorted := SortDesc(VideoMapOf(fs).order, LabelKey);
    assert l in sorted <==> l in multiset(VideoMapOf(fs).order);
  }

  /** "Audio Only" is offered exactly when some format is audio-only, and it
      comes last. */
  lemma CatalogAudioLast(fs: seq<Format>)
    ensures var c := SortedQualities(fs);
            (AudioOnly in c <==> exists i :: 0 <= i < |fs| && IsAudioOnly(fs[i])) &&
            (AudioOnly in c ==> c[|c| - 1] == AudioOnly)
  {
    CatalogParts(fs);
    VideoOrderLabels(fs);
    AudioFormatsNonEmpty(fs);
    var sorted := SortDesc(VideoMapOf(fs).order, LabelKey);
    assert AudioOnly !in multiset(sorted);
  }

  /** "Audio Only" is backed by the first audio-only format of maximal bitrate,
      a missing bitrate counting as 0. */
  lemma AudioBacking(fs: seq<Format>)
    requires AudioOnly in SortedQualities(fs)
    ensures AudioOnly in FullMap(fs).entries
    ensures exists j :: FirstBestAudio(fs, j) && FullMap(fs).entries[AudioOnly] == AudioEntryOf(fs[j])
  {
    CatalogAudioLast(fs);
    AudioFormatsNonEmpty(fs);
    var a := AudioFormats(fs);
    FirstMaxOfAudioFormats(fs, BestAudioIndex(a));
  }

  /** Apart from "Audio Only", the full map is the loop's map. */
  lemma FullMapAt(fs: seq<Format>, l: string)
    requires l != AudioOnly
    ensures l in FullMap(fs).entries <==> l in VideoMapOf(fs).entries
    ensures l in VideoMapOf(fs).entries ==> FullMap(fs).entries[l] == VideoMapOf(fs).entries[l]
  {
  }

  /** Each height label of the catalog is backed by the first of the largest
      muxed files of that height. */
  lemma HeightBacking(fs: seq<Format>, l: string)
    requires l in SortedQualities(fs) && l != AudioOnly
    ensures l in FullMap(fs).entries
    ensures exists j :: IsBacking(fs, l, j) && FullMap(fs).entries[l] == VideoEntryOf(fs[j])
  {
    assert l in VideoMapOf(fs).entries by {
      CatalogHeightLabels(fs, l);
      VideoMapKeys(fs, l);
    }
    VideoMapBacking(fs, l);
    var j :| IsBacking(fs, l, j) && VideoMapOf(fs).entries[l] == VideoEntryOf(fs[j]);
    FullMapAt(fs, l);
    assert FullMap(fs).entries[l] == VideoEntryOf(fs[j]);
  }

  /** The sorted height labels: distinct, strictly descending, no "Audio Only". */
  lemma SortedHeights(fs: seq<Format>)
    ensures var sorted := SortDesc(VideoMapOf(fs).order, LabelKey);
            NoDuplicates(sorted) && AudioOnly !in sorted &&
            (forall l :: l in sorted ==> IsHeightLabel(l)) &&
            (forall i, j :: 0 <= i < j < |sorted| ==> LabelKey(sorted[i]) > LabelKey(sorted[j]))
  {
    VideoOrderLabels(fs);
    var order := VideoMapOf(fs).order;
    var sorted := SortDesc(order, LabelKey);
    SortDescNoDuplicates(order, LabelKey);
    SortDescSorted(order, LabelKey);
    assert forall l :: l in sorted ==> l in multiset(order);
    StrictlyByHeight(sorted);
  }

  /** No label twice; height labels strictly descending by their numeric
      height (not by string order), all before "Audio Only". */
  lemma CatalogOrdered(fs: seq<Format>)
    ensures var c := SortedQualities(fs);
            NoDuplicates(c) &&
            (forall l :: l in c && l != AudioOnly ==> IsHeightLabel(l)) &&
            (forall i, j :: 0 <= i < j < |c| && c[j] != AudioOnly ==>
               c[i] != AudioOnly && LabelKey(c[i]) > LabelKey(c[j]))
  {
    CatalogParts(fs);
    SortedHeights(fs);
    var sorted := SortDesc(VideoMapOf(fs).order, LabelKey);
    var tail := if AudioFormats(fs) != [] then [AudioOnly] else [];
    OrderedAppend(sorted, tail);
  }

  lemma OrderedAppend(sorted: seq<string>, tail: seq<string>)
    requires NoDuplicates(sorted) && AudioOnly !in sorted
    requires forall l :: l in sorted ==> IsHeightLabel(l)
    requires forall i, j :: 0 <= i < j < |sorted| ==> LabelKey(sorted[i]) > LabelKey(sorted[j])
    requires tail == [] || tail == [AudioOnly]
    ensures var c := sorted + tail;
            NoDuplicates(c) &&
            (forall l :: l in c && l != AudioOnly ==> IsHeightLabel(l)) &&
            (forall i, j :: 0 <= i < j < |c| && c[j] != AudioOnly ==>
               c[i] != AudioOnly && LabelKey(c[i]) > LabelKey(c[j]))
  {
    var c := sorted + tail;
    forall i, j | 0 <= i < j < |c| ensures c[i] != c[j] {
      if j >= |sorted| {
        assert c[j] == AudioOnly;
        assert c[i] in sorted;
      }
    }
    forall i, j | 0 <= i < j < |c| && c[j] != AudioOnly
      ensures c[i] != AudioOnly && LabelKey(c[i]) > LabelKey(c[j])
    {
      assert c[i] == sorted[i] && c[j] == sorted[j];
    }
  }

  // ---------------------------------------------------------------------------
  // An example
  // ---------------------------------------------------------------------------

  /** A muxed MP4 format of the given height and size. */
  function MuxedFormat(id: string, h: int, size: nat): Format {
    Format(id, Some("mp4"), Some("avc1"), Some("mp4a"), Some(h), Some(30), Some(size), None)
  }
  lemma ExampleLabels()
    ensures HeightLabel(720) == "720p" && HeightLabel(1080) == "1080p"
    ensures LabelKey("720p") == 720 && LabelKey("1080p") == 1080
  {
    assert NatToString(72) == "72";
    assert NatToString(720) == "720";
    assert NatToString(108) == "108";
    assert NatToString(1080) == "1080";
    LabelHeightOfHeightLabel(720);
    LabelHeightOfHeightLabel(1080);
  }

  lemma VideoMapOfTwo(fs: seq<Format>)
    requires |fs| == 2
    ensures VideoMapOf(fs) == AddFormat(AddFormat(EmptyMap, fs[0]), fs[1])
  {
    var init := fs[..1];
    assert VideoMapOf(init) == AddFormat(EmptyMap, fs[0]) by {
      assert init[..0] == [] && init[0] == fs[0];
    }
    assert VideoMapOf(fs) == AddFormat(VideoMapOf(init), fs[1]);
  }

  lemma ExampleFirstStep(f: Format)
    requires f == MuxedFormat("22", 720, 5)
    ensures AddFormat(EmptyMap, f).order == [HeightLabel(720)]
    ensures AddFormat(EmptyMap, f).entries.Keys == {HeightLabel(720)}
  {
  }
  lemma ExampleSecondStep(m1: QualityMap, f: Format)
    requires m1.Valid() && m1.order == [HeightLabel(720)] && HeightLabel(1080) !in m1.entries
    requires f == MuxedFormat("37", 1080, 9)
    ensures AddFormat(m1, f).order == [HeightLabel(720), HeightLabel(1080)]
  {
  }
  lemma ExampleOrder(fs: seq<Format>)
    requires fs == [MuxedFormat("22", 720, 5), MuxedFormat("37", 1080, 9)]
    ensures VideoMapOf(fs).order == [HeightLabel(720), HeightLabel(1080)]
  {
    VideoMapOfTwo(fs);
    HeightLabelInjective(720, 1080);
    ExampleFirstStep(fs[0]);
    ExampleSecondStep(AddFormat(EmptyMap, fs[0]), fs[1]);
  }
  lemma ExampleNoAudio(fs: seq<Format>)
    requires fs == [MuxedFormat("22", 720, 5), MuxedFormat("37", 1080, 9)]
    ensures AudioFormats(fs) == []
  {
    assert fs[1..][1..] == [];
    assert AudioFormats(fs[1..][1..]) == [];
    assert AudioFormats(fs[1..]) == [];
  }
  lemma ExampleSort()
    ensures SortDesc([HeightLabel(720), HeightLabel(1080)], LabelKey) == [HeightLabel(1080), HeightLabel(720)]
  {
    LabelHeightOfHeightLabel(720);
    LabelHeightOfHeightLabel(1080);
    var s := [HeightLabel(720), HeightLabel(1080)];
    assert s[..1] == [HeightLabel(720)];
    assert [HeightLabel(720)][..0] == [];
    assert SortDesc([HeightLabel(720)], LabelKey) == [HeightLabel(720)];
  }
  /** 1080p sorts before 720p, although "1080p" < "720p" as strings. */
  lemma CatalogExample()
    ensures SortedQualities([MuxedFormat("22", 720, 5), MuxedFormat("37", 1080, 9)]) == ["1080p", "720p"]
  {
    var fs := [MuxedFormat("22", 720, 5), MuxedFormat("37", 1080, 9)];
    ExampleOrder(fs);
    ExampleNoAudio(fs);
    ExampleSort();
    CatalogParts(fs);
    ExampleLabels();
  }
}
