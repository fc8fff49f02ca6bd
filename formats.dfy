/** What both programs read from yt-dlp: the info dict (or the error that
    `get_video_info` turns a failed extraction into), its format records, the codec
    classification of a format and the quality labels built from it. */
module Formats {
  import opened PyValues
  import opened Formatting

  /** One element of yt-dlp's `formats` list, with the keys the programs read.
      `ext` and `url` keep the difference between a missing key and a None value,
      which `format.get('ext', default)` and `'url' in format` observe. */
  datatype Format = Format(
    formatId: Option<string>,
    ext: Field<string>,
    height: Option<int>,
    width: Option<int>,
    filesize: Option<int>,
    vcodec: Option<string>,
    acodec: Option<string>,
    url: Field<string>,
    formatNote: Option<string>,
    abr: Option<int>)

  /** The keys of yt-dlp's info dict that the programs read. `title` keeps the
      missing-key case, which the Streamlit page reads as `info['title']`;
      `duration` and `viewCount` are missing or integers. */
  datatype Info = Info(
    id: Option<string>,
    title: Field<string>,
    thumbnail: Option<string>,
    duration: Option<int>,
    viewCount: Option<int>,
    uploader: Option<string>,
    formats: Option<seq<Format>>)

  /** What `ydl.extract_info` does: return an info dict, raise yt-dlp's
      DownloadError, or raise any other exception. */
  datatype BackendOutcome = Returned(info: Info) | DownloadError(message: string) | OtherError(message: string)

  /** The result of `get_video_info`: the info dict, or `{"error": message}`. */
  datatype Extraction = Extracted(info: Info) | Failed(message: string)

  /** `get_video_info`: a DownloadError passes its message through, any other
      exception is reported with a fixed prefix, and nothing escapes. */
  function GetVideoInfo(outcome: BackendOutcome): (r: Extraction)
    ensures outcome.Returned? <==> r.Extracted?
    ensures outcome.Returned? ==> r.info == outcome.info
    ensures outcome.DownloadError? ==> r == Failed(outcome.message)
    ensures outcome.OtherError? ==>
      r.Failed? && EndsWith(r.message, outcome.message)
      && r.message[..|r.message| - |outcome.message|] == "An unexpected error occurred: "
  {
    match outcome
    case Returned(info) => Extracted(info)
    case DownloadError(m) => Failed(m)
    case OtherError(m) => Failed("An unexpected error occurred: " + m)
  }

  // ---------------------------------------------------------------------------
  // Classification by codec

  datatype Kind = VideoWithAudio | VideoOnly | AudioOnly | Neither

  /** The codec test both programs apply, in the API's `if`/`elif` order. Each kind
      is exactly one conjunction of the two `'none'` tests, so no format has two kinds,
      and one whose codecs are both 'none' has none of the three. A codec that is
      missing reads as None, which is not equal to the string 'none'. */
  function Classify(f: Format): (k: Kind)
    ensures k == VideoWithAudio <==> f.vcodec != Some("none") && f.acodec != Some("none")
    ensures k == VideoOnly <==> f.vcodec != Some("none") && f.acodec == Some("none")
    ensures k == AudioOnly <==> f.vcodec == Some("none") && f.acodec != Some("none")
    ensures k == Neither <==> f.vcodec == Some("none") && f.acodec == Some("none")
    ensures f.vcodec.None? && f.acodec.None? ==> k == VideoWithAudio
    ensures f.vcodec.None? && f.acodec == Some("none") ==> k == VideoOnly
    ensures f.vcodec == Some("none") && f.acodec.None? ==> k == AudioOnly
  {
    if f.vcodec != Some("none") && f.acodec != Some("none") then VideoWithAudio
    else if f.vcodec != Some("none") && f.acodec == Some("none") then VideoOnly
    else if f.vcodec == Some("none") && f.acodec != Some("none") then AudioOnly
    else Neither
  }

  /** The predicate `Classify(f) == k`, as a value to filter with. */
  function IsKind(k: Kind): Format -> bool
  {
    f => Classify(f) == k
  }

  // ---------------------------------------------------------------------------
  // Labels

  /** `f"{height}p"` */
  function VideoQuality(height: int): string
  {
    IntToString(height) + "p"
  }

  /** `f"{abr}kbps" if abr else "Unknown quality"`, with `abr = format.get('abr', '')`. */
  function AudioQuality(abr: Option<int>): string
  {
    if Truthy(abr) then IntToString(abr.value) + "kbps" else "Unknown quality"
  }

  /** A video quality label is the height followed by `p`, and gives the height back. */
  lemma VideoQualityReadsBack(height: int)
    ensures EndsWith(VideoQuality(height), "p")
    ensures ParseInt(VideoQuality(height)[..|VideoQuality(height)| - 1]) == Some(height)
  {
    var q := VideoQuality(height);
    assert q[..|q| - 1] == IntToString(height);
    ParseIntToString(height);
  }

  /** An audio quality label names the bitrate when it is truthy, and says
      "Unknown quality" when the bitrate is missing or zero. */
  lemma AudioQualityReadsBack(abr: Option<int>)
    ensures Truthy(abr) ==>
      (EndsWith(AudioQuality(abr), "kbps")
       && ParseInt(AudioQuality(abr)[..|AudioQuality(abr)| - 4]) == Some(abr.value))
    ensures !Truthy(abr) <==> AudioQuality(abr) == "Unknown quality"
  {
    var q := AudioQuality(abr);
    if Truthy(abr) {
      assert q[..|q| - 4] == IntToString(abr.value);
      ParseIntToString(abr.value);
      assert q[|q| - 4..] == "kbps";
    }
  }

  /** `f"{size/1024/1024:.1f} MB" if size else None`, shared by both programs. */
  function SizeFormatted(filesize: Option<int>): (r: Option<string>)
    ensures r.Some? <==> Truthy(filesize)
    ensures r.Some? ==> EndsWith(r.value, " MB") && r.value == MegabytesText(filesize.value)
  {
    if Truthy(filesize) then Some(MegabytesText(filesize.value)) else None
  }
}
