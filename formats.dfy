/** The format records yt-dlp reports for a video, as the downloader reads
    them, and the `"{height}p"` labels the catalog is keyed by. */
module Formats {
  import opened Common

  /** One entry of `info['formats']`. A field that the record lacks is `None`;
      `fmt.get(k, d)` then yields the default `d`. */
  datatype Format = Format(
    formatId: string,
    ext: Option<string>,
    vcodec: Option<string>,
    acodec: Option<string>,
    height: Option<int>,
    fps: Option<int>,
    filesize: Option<nat>,
    abr: Option<real>)

  /** `fmt.get(codec) == 'none'`: the stream is explicitly absent. */
  predicate IsNoneCodec(c: Option<string>) {
    c == Some("none")
  }

  /** Python truthiness of an optional integer: present and non-zero. */
  predicate Truthy(x: Option<int>) {
    x.Some? && x.value != 0
  }

  /** Carries both a video and an audio stream (src/downloader.py:67). */
  predicate IsMuxed(f: Format) {
    !IsNoneCodec(f.vcodec) && !IsNoneCodec(f.acodec)
  }

  /** Audio stream only (src/downloader.py:83). */
  predicate IsAudioOnly(f: Format) {
    IsNoneCodec(f.vcodec) && !IsNoneCodec(f.acodec)
  }

  /** Video stream only (youtube_downloader.py:276). */
  predicate IsVideoOnly(f: Format) {
    !IsNoneCodec(f.vcodec) && IsNoneCodec(f.acodec)
  }

  /** `fmt.get('filesize', 0)`, a missing size counted as 0. */
  function FileSize(f: Format): nat {
    f.filesize.GetOr(0)
  }

  /** `fmt.get('abr', 0)`. */
  function Abr(f: Format): real {
    f.abr.GetOr(0.0)
  }

  /** The catalog label of audio-only downloads. */
  const AudioOnly: string := "Audio Only"

  /** `f"{height}p"`, the sign written before the digits. */
  function HeightLabel(h: int): (l: string)
    ensures |l| >= 2 && l[|l| - 1] == 'p'
    decreases if h < 0 then 1 else 0
  {
    if h < 0 then "-" + HeightLabel(-h) else NatToString(h) + "p"
  }

  /** `int(label.replace('p', ''))`; a string that is not a numeral once its
      `p`s are removed raises ValueError in Python, modelled as None. */
  function LabelHeight(l: string): Option<int> {
    ParseInt(RemoveChar(l, 'p'))
  }

  /** Every character of a numeral is a digit or the minus sign. */
  lemma IntToStringHasNoP(i: int)
    ensures 'p' !in IntToString(i)
  {
    var s := IntToString(i);
    NatToStringDigits(if i < 0 then -i else i);
    if i < 0 {
      assert s == "-" + NatToString(-i);
      assert AllDigits(NatToString(-i));
      forall k | 0 <= k < |s| ensures s[k] != 'p' {
        if k > 0 {
          assert s[k] == NatToString(-i)[k - 1];
        }
      }
    } else {
      assert AllDigits(s);
    }
  }

  /** The label is the numeral of the height followed by `p`. */
  lemma HeightLabelIsNumeral(h: int)
    ensures HeightLabel(h) == IntToString(h) + "p"
  {
    if h < 0 {
      assert HeightLabel(-h) == NatToString(-h) + "p";
    }
  }

  /** `label.replace('p', '')` gives back the numeral of the height. */
  lemma HeightLabelNumeral(h: int)
    ensures RemoveChar(HeightLabel(h), 'p') == IntToString(h)
  {
    HeightLabelIsNumeral(h);
    IntToStringHasNoP(h);
    RemoveCharAppend(IntToString(h), "p", 'p');
    assert RemoveChar("p", 'p') == [];
    assert IntToString(h) + [] == IntToString(h);
  }

  /** The sort key recovers the height a label was made from. */
  lemma LabelHeightOfHeightLabel(h: int)
    ensures LabelHeight(HeightLabel(h)) == Some(h)
  {
    HeightLabelNumeral(h);
    ParseIntOfIntToString(h);
  }

  /** Distinct heights have distinct labels. */
  lemma HeightLabelInjective(a: int, b: int)
    ensures HeightLabel(a) == HeightLabel(b) <==> a == b
  {
    if HeightLabel(a) == HeightLabel(b) {
      LabelHeightOfHeightLabel(a);
      LabelHeightOfHeightLabel(b);
    }
  }

  /** "Audio Only" can never collide with a height label: it does not end in `p`. */
  lemma AudioOnlyIsNotAHeightLabel(h: int)
    ensures HeightLabel(h) != AudioOnly
  {
    assert AudioOnly[|AudioOnly| - 1] == 'y';
  }
}
