/** The Flask API (api/app.py): the `url` check on the request body, the
    `/api/video-info` projection of the info dict, and the `/api/download-links`
    split of the format list into three buckets. Routing, CORS and the API-key
    header gate are not part of this model. */
module Api {
  import opened PyValues
  import opened Sequences
  import opened Formatting
  import opened Formats

  // ---------------------------------------------------------------------------
  // Requests and responses

  /** `request.get_json()` on a JSON request: the JSON `null`, or a JSON object with
      string values. */
  type Body = Option<map<string, string>>

  /** A response: 200 with a JSON body, 400 with `{"error": ...}`, or the 500 that
      Flask sends for an exception the handler does not catch. */
  datatype Response<T> = Ok(body: T) | BadRequest(error: string) | ServerError

  /** `if not data or 'url' not in data: return ..., 400`, then `data['url']`. An
      empty object has no `url` key, so the test reduces to the key being there;
      an empty string is accepted. */
  function RequestedUrl(body: Body): (r: Option<string>)
    ensures r.Some? <==> body.Some? && "url" in body.value
    ensures r.Some? ==> r.value == body.value["url"]
  {
    if body.None? || body.value == map[] || "url" !in body.value then None
    else Some(body.value["url"])
  }

  // ---------------------------------------------------------------------------
  // /api/video-info

  /** One element of `formatted_info["formats"]`. */
  datatype FormatSummary = FormatSummary(
    formatId: Option<string>,
    ext: Option<string>,
    height: Option<int>,
    width: Option<int>,
    filesize: Option<int>,
    filesizeFormatted: Option<string>,
    vcodec: Option<string>,
    acodec: Option<string>,
    url: Option<string>,
    formatNote: Option<string>,
    abr: Option<int>)

  /** The body of a successful `/api/video-info` response. */
  datatype VideoDetails = VideoDetails(
    id: Option<string>,
    title: Option<string>,
    thumbnail: Option<string>,
    duration: string,
    viewCount: string,
    uploader: Option<string>,
    formats: seq<FormatSummary>)

  /** The `format_info` dict built for one format that has a `url` key: `ext` falls
      back to 'mp4' only when the key is missing, a url mapped to None stays None, the
      formatted size is there exactly when the size is truthy, and the other keys are
      copied as `.get` reads them. */
  function Summary(f: Format): (r: FormatSummary)
    ensures f.ext.Absent? ==> r.ext == Some("mp4")
    ensures f.ext.Null? ==> r.ext.None?
    ensures f.ext.Present? ==> r.ext == Some(f.ext.value)
    ensures f.url.Present? ==> r.url == Some(f.url.value)
    ensures f.url.Null? ==> r.url.None?
    ensures r.filesizeFormatted.Some? <==> Truthy(f.filesize)
    ensures r.formatId == f.formatId && r.height == f.height && r.width == f.width
      && r.filesize == f.filesize && r.vcodec == f.vcodec && r.acodec == f.acodec
      && r.formatNote == f.formatNote && r.abr == f.abr
  {
    FormatSummary(f.formatId, GetOr(f.ext, "mp4"), f.height, f.width, f.filesize,
      SizeFormatted(f.filesize), f.vcodec, f.acodec, Get(f.url), f.formatNote, f.abr)
  }

  predicate HasUrl(f: Format)
  {
    HasKey(f.url)
  }

  /** The specification of the format loop: one summary per format with a `url` key. */
  function Summaries(formats: seq<Format>): seq<FormatSummary>
  {
    Select(formats, HasUrl, Summary)
  }

  /** `info.get(key, 0)` for the integer keys `duration` and `view_count`. */
  function IntOrZero(x: Option<int>): int
  {
    if x.Some? then x.value else 0
  }

  /** The loop at api/app.py:106-121, appending one summary per format that has a `url`. */
  method SummarizeFormats(formats: seq<Format>) returns (summaries: seq<FormatSummary>)
    ensures summaries == Summaries(formats)
  {
    summaries := [];
    for i := 0 to |formats|
      invariant summaries == Summaries(formats[..i])
    {
      var f := formats[i];
      assert formats[..i + 1][..i] == formats[..i];
      if HasKey(f.url) {
        summaries := summaries + [Summary(f)];
      }
    }
    assert formats[..|formats|] == formats;
  }

  /** The specification of `formatted_info`: `info.get(...)` for the plain keys,
      the two formatters with a default of 0, and the summaries of
      `info.get('formats', [])`. */
  function DetailsOf(info: Info): VideoDetails
    requires DurationInRange(IntOrZero(info.duration))
  {
    VideoDetails(info.id, Get(info.title), info.thumbnail,
      FormatDuration(IntOrZero(info.duration)), FormatViews(IntOrZero(info.viewCount)),
      info.uploader, Summaries(if info.formats.Some? then info.formats.value else []))
  }

  /** `formatted_info` for an info dict whose duration `timedelta` accepts. */
  method FormatVideoInfo(info: Info) returns (details: VideoDetails)
    requires DurationInRange(IntOrZero(info.duration))
    ensures details == DetailsOf(info)
  {
    var formats := if info.formats.Some? then info.formats.value else [];
    var summaries := SummarizeFormats(formats);
    details := VideoDetails(info.id, Get(info.title), info.thumbnail,
      FormatDuration(IntOrZero(info.duration)), FormatViews(IntOrZero(info.viewCount)),
      info.uploader, summaries);
  }

  /** `POST /api/video-info` once the API key has been accepted. A body without
      `url` is refused before yt-dlp is consulted, so the response does not depend
      on the backend at all; otherwise the backend is asked about that url. */
  method VideoInfoEndpoint(body: Body, backend: string -> BackendOutcome)
    returns (response: Response<VideoDetails>)
    ensures RequestedUrl(body).None? ==> response == BadRequest("URL is required")
    ensures RequestedUrl(body).Some? ==>
      match GetVideoInfo(backend(RequestedUrl(body).value))
      case Failed(message) => response == BadRequest(message)
      case Extracted(info) =>
        if DurationInRange(IntOrZero(info.duration)) then response == Ok(DetailsOf(info))
        else response == ServerError
  {
    var url := RequestedUrl(body);
    if url.None? {
      return BadRequest("URL is required");
    }
    var extraction := GetVideoInfo(backend(url.value));
    if extraction.Failed? {
      return BadRequest(extraction.message);
    }
    if !DurationInRange(IntOrZero(extraction.info.duration)) {
      return ServerError;
    }
    var details := FormatVideoInfo(extraction.info);
    response := Ok(details);
  }

  /** The video-info listing keeps exactly the formats that have a `url` key, once
      each and in input order; `ext` falls back to 'mp4' only when the key is
      missing; `filesize_formatted` is present exactly when the size is truthy. */
  lemma SummariesOnePerUrl(formats: seq<Format>)
    ensures |Summaries(formats)| == |Positions(formats, HasUrl)|
    ensures forall j :: 0 <= j < |Positions(formats, HasUrl)| ==>
      Summaries(formats)[j] == Summary(formats[Positions(formats, HasUrl)[j]])
    ensures forall i :: 0 <= i < |formats| ==> (i in Positions(formats, HasUrl) <==> HasKey(formats[i].url))
    ensures forall j, j' :: 0 <= j < j' < |Positions(formats, HasUrl)| ==>
      Positions(formats, HasUrl)[j] < Positions(formats, HasUrl)[j']
    ensures forall s :: s in Summaries(formats) ==>
      (s.filesizeFormatted.None? <==> !Truthy(s.filesize))
    ensures forall f :: f in formats && f.ext.Absent? ==> Summary(f).ext == Some("mp4")
    ensures forall f :: f in formats && f.ext.Null? ==> Summary(f).ext.None?
    ensures forall f :: f in formats && f.ext.Present? ==> Summary(f).ext == Some(f.ext.value)
  {
    SelectAt(formats, HasUrl, Summary);
    var p := Positions(formats, HasUrl);
    forall s | s in Summaries(formats)
      ensures s.filesizeFormatted.None? <==> !Truthy(s.filesize)
    {
      var j :| 0 <= j < |Summaries(formats)| && Summaries(formats)[j] == s;
      assert s == Summary(formats[p[j]]);
    }
  }

  // ---------------------------------------------------------------------------
  // /api/download-links

  /** One element of a download-links bucket: `format_info` plus `quality`. */
  datatype LinkEntry = LinkEntry(
    formatId: Option<string>,
    ext: Option<string>,
    height: Option<int>,
    filesize: Option<int>,
    filesizeFormatted: Option<string>,
    url: Option<string>,
    formatNote: Option<string>,
    abr: Option<int>,
    quality: string)

  /** The body of a successful `/api/download-links` response. */
  datatype DownloadLinks = DownloadLinks(
    videoWithAudio: seq<LinkEntry>,
    videoOnly: seq<LinkEntry>,
    audioOnly: seq<LinkEntry>)

  /** Whether the loop appends `f` to the bucket of kind `k`: it has a `url` key,
      its codecs put it in `k`, and a video format has a truthy height. */
  predicate Admits(f: Format, k: Kind)
  {
    HasKey(f.url) && Classify(f) == k && k != Neither && (k == AudioOnly || Truthy(f.height))
  }

  /** The entry appended for `f` in the bucket of kind `k`: a video entry is labelled
      `str(height)` and `p`, an audio entry `str(abr)` and `kbps` for a truthy bitrate
      and `Unknown quality` otherwise (by ParseIntExact, reading back fixes the text);
      the url is the format's, and `ext` falls back to 'mp4' only for a missing key. */
  function Entry(f: Format, k: Kind): (r: LinkEntry)
    ensures k != AudioOnly && f.height.Some? ==>
      EndsWith(r.quality, "p") && ParseInt(r.quality[..|r.quality| - 1]) == Some(f.height.value)
    ensures k == AudioOnly ==> (r.quality == "Unknown quality" <==> !Truthy(f.abr))
    ensures k == AudioOnly && Truthy(f.abr) ==>
      EndsWith(r.quality, "kbps") && ParseInt(r.quality[..|r.quality| - 4]) == Some(f.abr.value)
    ensures f.url.Present? ==> r.url == Some(f.url.value)
    ensures f.url.Null? ==> r.url.None?
    ensures f.ext.Absent? ==> r.ext == Some("mp4")
    ensures f.ext.Null? ==> r.ext.None?
    ensures f.ext.Present? ==> r.ext == Some(f.ext.value)
    ensures r.filesizeFormatted.Some? <==> Truthy(f.filesize)
  {
    var quality :=
      if k == AudioOnly then AudioQuality(f.abr)
      else if f.height.Some? then VideoQuality(f.height.value)
      else "";  // not reached: a video bucket admits only formats with a height
    AudioQualityReadsBack(f.abr);
    VideoQualityReadsBack(if f.height.Some? then f.height.value else 0);
    LinkEntry(f.formatId, GetOr(f.ext, "mp4"), f.height, f.filesize, SizeFormatted(f.filesize),
      Get(f.url), f.formatNote, f.abr, quality)
  }

  function AdmitsAs(k: Kind): Format -> bool
  {
    f => Admits(f, k)
  }

  function EntryAs(k: Kind): Format -> LinkEntry
  {
    f => Entry(f, k)
  }

  /** The specification of a bucket after the loop, before any slicing. */
  function Bucket(formats: seq<Format>, k: Kind): seq<LinkEntry>
  {
    Select(formats, AdmitsAs(k), EntryAs(k))
  }

  /** The loop at api/app.py:145-172 and the slices at api/app.py:174-178. */
  method CollectDownloadLinks(formats: seq<Format>) returns (links: DownloadLinks)
    ensures links.videoWithAudio == Bucket(formats, VideoWithAudio)
    ensures links.videoOnly == Take(Bucket(formats, VideoOnly), 5)
    ensures links.audioOnly == Take(Bucket(formats, AudioOnly), 3)
    ensures |links.videoOnly| <= 5 && |links.audioOnly| <= 3
  {
    var withAudio, videoOnly, audioOnly := [], [], [];
    for i := 0 to |formats|
      invariant withAudio == Bucket(formats[..i], VideoWithAudio)
      invariant videoOnly == Bucket(formats[..i], VideoOnly)
      invariant audioOnly == Bucket(formats[..i], AudioOnly)
    {
      var f := formats[i];
      BucketGrows(formats, i, VideoWithAudio);
      BucketGrows(formats, i, VideoOnly);
      BucketGrows(formats, i, AudioOnly);
      if HasKey(f.url) {
        var k := Classify(f);
        if k == VideoWithAudio {
          if Truthy(f.height) {
            withAudio := withAudio + [Entry(f, k)];
          }
        } else if k == VideoOnly {
          if Truthy(f.height) {
            videoOnly := videoOnly + [Entry(f, k)];
          }
        } else if k == AudioOnly {
          audioOnly := audioOnly + [Entry(f, k)];
        }
      }
    }
    assert formats[..|formats|] == formats;
    links := DownloadLinks(withAudio, Take(videoOnly, 5), Take(audioOnly, 3));
  }

  /** One more format of the input appends at most its own entry to a bucket. */
  lemma BucketGrows(formats: seq<Format>, i: nat, k: Kind)
    requires i < |formats|
    ensures Bucket(formats[..i + 1], k)
      == Bucket(formats[..i], k) + (if Admits(formats[i], k) then [Entry(formats[i], k)] else [])
  {
    assert formats[..i + 1][..i] == formats[..i];
  }

  /** `POST /api/download-links` once the API key has been accepted. */
  method DownloadLinksEndpoint(body: Body, backend: string -> BackendOutcome)
    returns (response: Response<DownloadLinks>)
    ensures RequestedUrl(body).None? ==> response == BadRequest("URL is required")
    ensures RequestedUrl(body).Some? ==>
      match GetVideoInfo(backend(RequestedUrl(body).value))
      case Failed(message) => response == BadRequest(message)
      case Extracted(info) =>
        var formats := if info.formats.Some? then info.formats.value else [];
        response == Ok(DownloadLinks(Bucket(formats, VideoWithAudio),
          Take(Bucket(formats, VideoOnly), 5), Take(Bucket(formats, AudioOnly), 3)))
  {
    var url := RequestedUrl(body);
    if url.None? {
      return BadRequest("URL is required");
    }
    var extraction := GetVideoInfo(backend(url.value));
    if extraction.Failed? {
      return BadRequest(extraction.message);
    }
    var info := extraction.info;
    var links := CollectDownloadLinks(if info.formats.Some? then info.formats.value else []);
    response := Ok(links);
  }

  /** A bucket holds exactly the formats the loop admits to it, one entry each,
      in input order. */
  lemma BucketSources(formats: seq<Format>, k: Kind)
    ensures |Bucket(formats, k)| == |Positions(formats, AdmitsAs(k))|
    ensures forall j :: 0 <= j < |Positions(formats, AdmitsAs(k))| ==>
      Bucket(formats, k)[j] == Entry(formats[Positions(formats, AdmitsAs(k))[j]], k)
    ensures forall i :: 0 <= i < |formats| ==>
      (i in Positions(formats, AdmitsAs(k)) <==> Admits(formats[i], k))
    ensures forall j, j' :: 0 <= j < j' < |Positions(formats, AdmitsAs(k))| ==>
      Positions(formats, AdmitsAs(k))[j] < Positions(formats, AdmitsAs(k))[j']
  {
    SelectAt(formats, AdmitsAs(k), EntryAs(k));
  }

  /** No input format feeds two buckets, and one whose codecs are both 'none' feeds none. */
  lemma BucketsDisjoint(formats: seq<Format>, k1: Kind, k2: Kind)
    requires k1 != k2
    ensures forall i :: 0 <= i < |formats| ==>
      !(i in Positions(formats, AdmitsAs(k1)) && i in Positions(formats, AdmitsAs(k2)))
    ensures forall i ::
      (0 <= i < |formats| && formats[i].vcodec == Some("none") && formats[i].acodec == Some("none"))
      ==> i !in Positions(formats, AdmitsAs(k1))
  {
    BucketSources(formats, k1);
    BucketSources(formats, k2);
  }

  /** Every entry of every bucket comes from an input format that has a `url` key
      and carries that format's url and format id. */
  lemma EntriesCarryUrl(formats: seq<Format>, k: Kind)
    ensures forall e :: e in Bucket(formats, k) ==>
      exists i :: (0 <= i < |formats| && HasKey(formats[i].url)
        && e.url == Get(formats[i].url) && e.formatId == formats[i].formatId)
  {
    BucketSources(formats, k);
    var p := Positions(formats, AdmitsAs(k));
    forall e | e in Bucket(formats, k)
      ensures exists i :: (0 <= i < |formats| && HasKey(formats[i].url)
        && e.url == Get(formats[i].url) && e.formatId == formats[i].formatId)
    {
      var j :| 0 <= j < |Bucket(formats, k)| && Bucket(formats, k)[j] == e;
      var i := p[j];
      assert Admits(formats[i], k);
    }
  }

  /** Entries of the two video buckets all have a truthy height, and their quality is
      that height followed by `p`; a video format with a missing or zero height is
      in neither. */
  lemma VideoEntriesHaveHeight(formats: seq<Format>, k: Kind)
    requires k == VideoWithAudio || k == VideoOnly
    ensures forall e :: e in Bucket(formats, k) ==>
      Truthy(e.height) && e.quality == VideoQuality(e.height.value)
    ensures forall i :: 0 <= i < |formats| && !Truthy(formats[i].height) ==>
      i !in Positions(formats, AdmitsAs(k))
  {
    BucketSources(formats, k);
    var p := Positions(formats, AdmitsAs(k));
    forall e | e in Bucket(formats, k)
      ensures Truthy(e.height) && e.quality == VideoQuality(e.height.value)
    {
      var j :| 0 <= j < |Bucket(formats, k)| && Bucket(formats, k)[j] == e;
      assert Admits(formats[p[j]], k);
    }
  }

  /** The audio bucket is not filtered by height: it admits every audio-only format
      that has a `url`, and labels it with its bitrate or "Unknown quality". */
  lemma AudioEntriesUnfiltered(formats: seq<Format>)
    ensures forall i :: 0 <= i < |formats| ==>
      (i in Positions(formats, AdmitsAs(AudioOnly))
       <==> HasKey(formats[i].url) && Classify(formats[i]) == AudioOnly)
    ensures forall e :: e in Bucket(formats, AudioOnly) ==> e.quality == AudioQuality(e.abr)
    ensures forall e :: e in Bucket(formats, AudioOnly) ==>
      (e.quality == "Unknown quality" <==> !Truthy(e.abr))
  {
    BucketSources(formats, AudioOnly);
    var p := Positions(formats, AdmitsAs(AudioOnly));
    forall e | e in Bucket(formats, AudioOnly)
      ensures e.quality == AudioQuality(e.abr)
      ensures e.quality == "Unknown quality" <==> !Truthy(e.abr)
    {
      var j :| 0 <= j < |Bucket(formats, AudioOnly)| && Bucket(formats, AudioOnly)[j] == e;
      assert e == Entry(formats[p[j]], AudioOnly);
      AudioQualityReadsBack(e.abr);
    }
  }

  /** The response keeps every video-with-audio entry, and a prefix of at most 5
      video-only and at most 3 audio-only entries, in the loop's order; a bucket
      shorter than its limit is returned whole. */
  lemma DownloadLinksTruncation(formats: seq<Format>)
    ensures var vo, ao := Bucket(formats, VideoOnly), Bucket(formats, AudioOnly);
      Take(vo, 5) <= vo && |Take(vo, 5)| == (if |vo| < 5 then |vo| else 5)
      && Take(ao, 3) <= ao && |Take(ao, 3)| == (if |ao| < 3 then |ao| else 3)
  {
  }
}
