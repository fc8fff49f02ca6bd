/** The Streamlit page (app.py): which download links it renders, in which order
    and with which label, and where an exception stops the script. The page layout
    (titles, columns, the thumbnail, markdown styling) is not part of this model;
    a rendered link is its label and its target. */
module Streamlit {
  import opened PyValues
  import opened Sequences
  import opened Formatting
  import opened Formats

  /** An exception that stops the script; Streamlit shows it in place of the rest
      of the page. */
  datatype Crash =
    | MissingKey(key: string)   // KeyError from `info[key]` or `format[key]`
    | NoneHasNoUpper            // AttributeError from `None.upper()`
    | DurationOverflow          // OverflowError from `timedelta(seconds=...)`

  /** `[caption](href)` */
  datatype Link = Link(caption: string, href: string)

  function Markdown(link: Link): string
  {
    "[" + link.caption + "](" + link.href + ")"
  }

  /** The links rendered so far, and the exception that stopped rendering, if any. */
  datatype Section = Section(links: seq<Link>, crash: Option<Crash>)

  /** `f" - {filesize/1024/1024:.1f} MB" if filesize else ""`: empty exactly when the
      size is missing or zero, and otherwise ` - <size> MB`. */
  function SizeSuffix(filesize: Option<int>): (r: string)
    ensures r == "" <==> !Truthy(filesize)
    ensures Truthy(filesize) ==> |r| >= 3 && r[..3] == " - " && EndsWith(r, " MB")
  {
    if Truthy(filesize) then " - " + MegabytesText(filesize.value) else ""
  }

  /** Whether the loop body renders `f`: video sections skip formats without a
      truthy height, the audio section renders every format it iterates over. */
  predicate Shown(f: Format, audio: bool)
  {
    audio || Truthy(f.height)
  }

  /** `format.get('ext', 'mp3')` in the audio section, `'mp4'` in the video ones. */
  function Ext(f: Format, audio: bool): Option<string>
  {
    GetOr(f.ext, if audio then "mp3" else "mp4")
  }

  /** The exception raised while rendering the link of `f`, in the f-string's
      evaluation order: `ext.upper()` on a None extension, then `format['url']` on a
      format without that key. */
  function LinkCrash(f: Format, audio: bool): (r: Option<Crash>)
    ensures r.None? <==> Ext(f, audio).Some? && HasKey(f.url)
    ensures Ext(f, audio).None? ==> r == Some(NoneHasNoUpper)
    ensures r == Some(MissingKey("url")) <==> Ext(f, audio).Some? && f.url.Absent?
    ensures r.None? <==> !f.ext.Null? && HasKey(f.url)
  {
    if Ext(f, audio).None? then Some(NoneHasNoUpper)
    else if f.url.Absent? then Some(MissingKey("url"))
    else None
  }

  /** The link rendered for `f` when `LinkCrash(f, audio)` is None: the caption
      starts with `Download ` and ends with the size suffix, and the target is the
      format's url, or `None` as the f-string prints a url mapped to None. */
  function LinkOf(f: Format, audio: bool): (l: Link)
    ensures |l.caption| >= 9 && l.caption[..9] == "Download "
    ensures EndsWith(l.caption, SizeSuffix(f.filesize))
    ensures f.url.Present? ==> l.href == f.url.value
    ensures f.url.Null? ==> l.href == "None"
  {
    var ext := if Ext(f, audio).Some? then Upper(Ext(f, audio).value) else "";
    var quality :=
      if audio then "Audio " + AudioQuality(f.abr)
      else if f.height.Some? then VideoQuality(f.height.value)
      else "";  // not reached: a video section renders only formats with a height
    var href := match f.url
      case Present(u) => u
      case Null => "None"
      case Absent => "";  // not reached: the missing key raises first
    Link("Download " + quality + " " + ext + SizeSuffix(f.filesize), href)
  }

  function ShownAs(audio: bool): Format -> bool
  {
    f => Shown(f, audio)
  }

  function LinkAs(audio: bool): Format -> Link
  {
    f => LinkOf(f, audio)
  }

  /** The specification of one render loop over `formats`, element by element: a
      skipped format adds nothing, a renderable one adds its link, and the first
      exception stops the loop. */
  function RenderSpec(formats: seq<Format>, audio: bool): (s: Section)
    ensures |s.links| <= |formats|
  {
    if formats == [] then Section([], None)
    else
      var before := RenderSpec(formats[..|formats| - 1], audio);
      var f := formats[|formats| - 1];
      if before.crash.Some? || !Shown(f, audio) then before
      else if LinkCrash(f, audio).Some? then Section(before.links, LinkCrash(f, audio))
      else Section(before.links + [LinkOf(f, audio)], None)
  }

  /** Once a prefix of the loop has raised, the rest of the list changes nothing. */
  lemma {:induction false} CrashSticks(formats: seq<Format>, i: nat, audio: bool)
    requires i <= |formats|
    requires RenderSpec(formats[..i], audio).crash.Some?
    ensures RenderSpec(formats, audio) == RenderSpec(formats[..i], audio)
    decreases |formats|
  {
    if i == |formats| {
      assert formats[..i] == formats;
    } else {
      var init := formats[..|formats| - 1];
      assert init[..i] == formats[..i];
      CrashSticks(init, i, audio);
    }
  }

  /** One render loop (app.py:91-98, 104-111 or 117-124), stopping at the first exception. */
  method RenderLinks(formats: seq<Format>, audio: bool) returns (section: Section)
    ensures section == RenderSpec(formats, audio)
  {
    var links: seq<Link> := [];
    assert formats[..0] == [];
    for i := 0 to |formats|
      invariant RenderSpec(formats[..i], audio) == Section(links, None)
    {
      var f := formats[i];
      assert formats[..i + 1][..i] == formats[..i];
      if Shown(f, audio) {
        var crash := LinkCrash(f, audio);
        if crash.Some? {
          CrashSticks(formats, i + 1, audio);
          return Section(links, crash);
        }
        links := links + [LinkOf(f, audio)];
      }
    }
    assert formats[..|formats|] == formats;
    section := Section(links, None);
  }

  /** The list comprehension `[f for f in info['formats'] if <codec test of k>]`. */
  function Comprehension(formats: seq<Format>, k: Kind): seq<Format>
  {
    Filter(formats, IsKind(k))
  }

  /** Render `second` after `first`, unless `first` has already stopped the script. */
  function Then(first: Section, second: Section): Section
  {
    if first.crash.Some? then first else Section(first.links + second.links, second.crash)
  }

  /** The specification of the download-options part of the page: every video-with-audio
      format, then the first 5 video-only formats, then the first 3 audio-only formats. */
  function OptionsSpec(formats: seq<Format>): Section
  {
    Then(Then(RenderSpec(Comprehension(formats, VideoWithAudio), false),
              RenderSpec(Take(Comprehension(formats, VideoOnly), 5), false)),
         RenderSpec(Take(Comprehension(formats, AudioOnly), 3), true))
  }

  /** app.py:88-124: the three comprehensions and their render loops, in page order. */
  method RenderDownloadOptions(formats: seq<Format>) returns (section: Section)
    ensures section == OptionsSpec(formats)
  {
    var videoFormats := Comprehension(formats, VideoWithAudio);
    var withAudio := RenderLinks(videoFormats, false);
    if withAudio.crash.Some? {
      return withAudio;
    }
    var videoOnly := Comprehension(formats, VideoOnly);
    var videoSection := RenderLinks(Take(videoOnly, 5), false);
    if videoSection.crash.Some? {
      return Section(withAudio.links + videoSection.links, videoSection.crash);
    }
    var audioOnly := Comprehension(formats, AudioOnly);
    var audioSection := RenderLinks(Take(audioOnly, 3), true);
    section := Section(withAudio.links + videoSection.links + audioSection.links, audioSection.crash);
  }

  /** What the page shows after the button is pressed. */
  datatype Page =
    | UrlMissing                    // "Please enter a valid URL"
    | ErrorShown(text: string)      // `st.error(f"Error: {info['error']}")`
    | Rendered(section: Section)    // the details and the download links

  /** The specification of a page for an extracted info dict: `info['title']` and,
      when present, `format_duration(info['duration'])` are evaluated before the
      download options, and `info['formats']` is read without a default. */
  function PageSpec(info: Info): (s: Section)
    ensures info.title.Absent? ==> s == Section([], Some(MissingKey("title")))
    ensures HasKey(info.title) && info.duration.Some? && !DurationInRange(info.duration.value) ==>
      s == Section([], Some(DurationOverflow))
    ensures info.formats.None? ==> s.links == [] && s.crash.Some?
    ensures s.crash.None? ==> HasKey(info.title) && info.formats.Some?
  {
    if info.title.Absent? then Section([], Some(MissingKey("title")))
    else if info.duration.Some? && !DurationInRange(info.duration.value) then
      Section([], Some(DurationOverflow))
    else if info.formats.None? then Section([], Some(MissingKey("formats")))
    else OptionsSpec(info.formats.value)
  }

  /** app.py:54-124: pressing "Get Download Links" with the text in the url box. */
  method GetDownloadLinks(url: string, backend: string -> BackendOutcome) returns (page: Page)
    ensures url == "" ==> page == UrlMissing
    ensures url != "" ==>
      match GetVideoInfo(backend(url))
      case Failed(message) => page == ErrorShown("Error: " + message)
      case Extracted(info) => page == Rendered(PageSpec(info))
  {
    if url == "" {
      return UrlMissing;
    }
    var extraction := GetVideoInfo(backend(url));
    if extraction.Failed? {
      return ErrorShown("Error: " + extraction.message);
    }
    var info := extraction.info;
    if info.title.Absent? {
      return Rendered(Section([], Some(MissingKey("title"))));
    }
    if info.duration.Some? && !DurationInRange(info.duration.value) {
      return Rendered(Section([], Some(DurationOverflow)));
    }
    if info.formats.None? {
      return Rendered(Section([], Some(MissingKey("formats"))));
    }
    var options := RenderDownloadOptions(info.formats.value);
    page := Rendered(options);
  }

  // ---------------------------------------------------------------------------
  // Properties

  /** Each comprehension keeps exactly the formats of its kind, in input order, and no
      format is in two of them; one with both codecs 'none' is in none. */
  lemma ComprehensionsDisjoint(formats: seq<Format>, k1: Kind, k2: Kind)
    requires k1 != k2
    ensures |Comprehension(formats, k1)| == |Positions(formats, IsKind(k1))|
    ensures forall j :: 0 <= j < |Positions(formats, IsKind(k1))| ==>
      Comprehension(formats, k1)[j] == formats[Positions(formats, IsKind(k1))[j]]
    ensures forall i :: 0 <= i < |formats| ==>
      !(i in Positions(formats, IsKind(k1)) && i in Positions(formats, IsKind(k2)))
    ensures forall i :: (0 <= i < |formats| && formats[i].vcodec == Some("none")
      && formats[i].acodec == Some("none") && k1 != Neither) ==>
        i !in Positions(formats, IsKind(k1))
  {
    FilterAt(formats, IsKind(k1));
  }

  /** When no format it renders raises, a render loop renders exactly the shown
      formats, one link each, in order. */
  lemma {:induction false} RenderWithoutCrash(formats: seq<Format>, audio: bool)
    requires forall i :: 0 <= i < |formats| && Shown(formats[i], audio) ==>
      LinkCrash(formats[i], audio).None?
    ensures RenderSpec(formats, audio) == Section(Select(formats, ShownAs(audio), LinkAs(audio)), None)
  {
    if formats != [] {
      RenderWithoutCrash(formats[..|formats| - 1], audio);
    }
  }

  /** Every video-with-audio format with a truthy height gets a link, once, in input
      order, with no limit on their number (as long as none of them raises). */
  lemma CombinedLinksComplete(formats: seq<Format>)
    requires forall i :: (0 <= i < |formats| && Classify(formats[i]) == VideoWithAudio
      && Truthy(formats[i].height)) ==> LinkCrash(formats[i], false).None?
    ensures var s := RenderSpec(Comprehension(formats, VideoWithAudio), false);
      var p := Positions(formats, Both(IsKind(VideoWithAudio), ShownAs(false)));
      s.crash.None? && |s.links| == |p|
      && (forall j :: 0 <= j < |p| ==> s.links[j] == LinkOf(formats[p[j]], false))
  {
    var c := Comprehension(formats, VideoWithAudio);
    FilterAt(formats, IsKind(VideoWithAudio));
    forall i | 0 <= i < |c| && Shown(c[i], false)
      ensures LinkCrash(c[i], false).None?
    {
      var pc := Positions(formats, IsKind(VideoWithAudio));
      assert c[i] == formats[pc[i]];
    }
    RenderWithoutCrash(c, false);
    SelectOfFilter(formats, IsKind(VideoWithAudio), ShownAs(false), LinkAs(false));
    SelectAt(formats, Both(IsKind(VideoWithAudio), ShownAs(false)), LinkAs(false));
  }

  /** The video-only section iterates over the first 5 video-only formats and skips the
      heightless ones among them: at most 5 links, and (when none raises) one per
      heighted format of that prefix, in order. */
  lemma VideoOnlyFromFirstFive(formats: seq<Format>)
    ensures |RenderSpec(Take(Comprehension(formats, VideoOnly), 5), false).links| <= 5
    ensures var first := Take(Comprehension(formats, VideoOnly), 5);
      (forall i :: 0 <= i < |first| && Shown(first[i], false) ==> LinkCrash(first[i], false).None?) ==>
        RenderSpec(first, false) == Section(Select(first, ShownAs(false), LinkAs(false)), None)
  {
    var first := Take(Comprehension(formats, VideoOnly), 5);
    if forall i :: 0 <= i < |first| && Shown(first[i], false) ==> LinkCrash(first[i], false).None? {
      RenderWithoutCrash(first, false);
    }
  }

  /** A video-only format whose height is missing, ahead in the list, takes one of the
      5 places: here six heighted video-only formats follow five heightless ones, and
      the section renders no link at all. */
  lemma VideoOnlyCanShowFewerThanFive()
    ensures exists formats: seq<Format> ::
      |Positions(formats, Both(IsKind(VideoOnly), ShownAs(false)))| > 5
      && RenderSpec(Take(Comprehension(formats, VideoOnly), 5), false).links == []
  {
    var heightless := Format(None, Present("mp4"), None, None, None, Some("avc1"), Some("none"),
      Present("https://example.com/v"), None, None);
    var heighted := heightless.(height := Some(720));
    var formats := seq(5, _ => heightless) + seq(6, _ => heighted);
    assert forall i :: 0 <= i < |formats| ==> Classify(formats[i]) == VideoOnly;
    FilterKeepsAll(formats, IsKind(VideoOnly));
    var first := Take(formats, 5);
    assert first == formats[..5];
    NoneShown(first);
    AllKept(formats[5..], Both(IsKind(VideoOnly), ShownAs(false)));
    PositionsOfSuffix(formats, 5, Both(IsKind(VideoOnly), ShownAs(false)));
  }

  /** A list of heightless video formats renders nothing. */
  lemma {:induction false} NoneShown(formats: seq<Format>)
    requires forall i :: 0 <= i < |formats| ==> !Shown(formats[i], false)
    ensures RenderSpec(formats, false) == Section([], None)
  {
    if formats != [] {
      NoneShown(formats[..|formats| - 1]);
    }
  }

  /** A render loop in which every format is shown and none raises renders one link
      per format, in order. */
  lemma RenderEvery(formats: seq<Format>, audio: bool)
    requires forall i :: 0 <= i < |formats| ==>
      Shown(formats[i], audio) && LinkCrash(formats[i], audio).None?
    ensures RenderSpec(formats, audio).crash.None?
    ensures |RenderSpec(formats, audio).links| == |formats|
    ensures forall j :: 0 <= j < |formats| ==> RenderSpec(formats, audio).links[j] == LinkOf(formats[j], audio)
  {
    RenderWithoutCrash(formats, audio);
    SelectKeepsAll(formats, ShownAs(audio), LinkAs(audio));
  }

  /** The audio section renders each of the first 3 audio-only formats whatever its
      bitrate (when none raises), labelled with the bitrate or "Unknown quality" and
      the extension, which defaults to 'mp3'. */
  lemma AudioFirstThree(formats: seq<Format>)
    requires var first := Take(Comprehension(formats, AudioOnly), 3);
      forall i :: 0 <= i < |first| ==> LinkCrash(first[i], true).None?
    ensures var first := Take(Comprehension(formats, AudioOnly), 3);
      var s := RenderSpec(first, true);
      s.crash.None? && |s.links| == |first| <= 3
      && (forall j :: 0 <= j < |first| ==> s.links[j] == LinkOf(first[j], true))
    ensures var first := Take(Comprehension(formats, AudioOnly), 3);
      forall j :: 0 <= j < |first| ==>
        (RenderSpec(first, true).links[j].caption
         == "Download Audio " + AudioQuality(first[j].abr) + " "
            + Upper(Ext(first[j], true).value) + SizeSuffix(first[j].filesize))
    ensures var first := Take(Comprehension(formats, AudioOnly), 3);
      forall j :: 0 <= j < |first| && first[j].ext.Absent? ==> Ext(first[j], true) == Some("mp3")
  {
    var first := Take(Comprehension(formats, AudioOnly), 3);
    RenderEvery(first, true);
    var links := RenderSpec(first, true).links;
    forall j | 0 <= j < |first|
      ensures links[j].caption == "Download Audio " + AudioQuality(first[j].abr) + " "
        + Upper(Ext(first[j], true).value) + SizeSuffix(first[j].filesize)
    {
      AudioCaption(first[j]);
    }
  }

  /** The caption of an audio link. */
  lemma AudioCaption(f: Format)
    requires LinkCrash(f, true).None?
    ensures LinkOf(f, true).caption == "Download Audio " + AudioQuality(f.abr) + " "
      + Upper(Ext(f, true).value) + SizeSuffix(f.filesize)
  {
  }

  /** An audio caption starts with `Download Audio `; its quality part is the bitrate
      (which reads back) followed by `kbps`, or `Unknown quality` for a missing or
      zero bitrate; with no `ext` key the extension is `MP3`; it ends with the size
      suffix. */
  lemma AudioCaptionParts(f: Format)
    requires LinkCrash(f, true).None?
    ensures var c := LinkOf(f, true).caption;
      |c| >= 15 && c[..15] == "Download Audio " && EndsWith(c, SizeSuffix(f.filesize))
    ensures var c := LinkOf(f, true).caption;
      !Truthy(f.abr) ==> |c| >= 30 && c[15..30] == "Unknown quality"
    ensures Truthy(f.abr) ==>
      var c, n := LinkOf(f, true).caption, |IntToString(f.abr.value)|;
      |c| >= 19 + n && ParseInt(c[15..15 + n]) == Some(f.abr.value) && c[15 + n..19 + n] == "kbps"
    ensures var c, k := LinkOf(f, true).caption, |SizeSuffix(f.filesize)|;
      f.ext.Absent? ==> |c| >= k + 4 && c[|c| - k - 4..|c| - k] == " MP3"
  {
    AudioCaption(f);
    var q, e, z := AudioQuality(f.abr), Upper(Ext(f, true).value), SizeSuffix(f.filesize);
    CaptionLayout(q, e, z);
    if Truthy(f.abr) {
      var num := IntToString(f.abr.value);
      assert q == num + "kbps";
      assert q[..|num|] == num && q[|num|..] == "kbps";
      var c := LinkOf(f, true).caption;
      assert c[15..15 + |num|] == q[..|num|];
      assert c[15 + |num|..19 + |num|] == q[|num|..];
      ParseIntToString(f.abr.value);
    }
    if f.ext.Absent? {
      assert Upper("mp3") == "MP3";
    }
  }

  /** The caption of a video link. */
  lemma VideoCaption(f: Format)
    requires LinkCrash(f, false).None? && Truthy(f.height)
    ensures LinkOf(f, false).caption
      == "Download " + VideoQuality(f.height.value) + " " + Upper(Ext(f, false).value) + SizeSuffix(f.filesize)
  {
  }

  /** A video caption is `Download `, then `str(height)` (it reads back, and by
      ParseIntExact only that text does), then `p`, then a space and the upper-cased
      extension (`MP4` with no `ext` key), then the size suffix. */
  lemma VideoCaptionParts(f: Format)
    requires LinkCrash(f, false).None? && Truthy(f.height)
    ensures var c, n, k := LinkOf(f, false).caption, |IntToString(f.height.value)|, |SizeSuffix(f.filesize)|;
      |c| >= 10 + n + k && c[..9] == "Download " && ParseInt(c[9..9 + n]) == Some(f.height.value)
      && c[9 + n] == 'p' && c[10 + n..|c| - k] == " " + Upper(Ext(f, false).value)
      && c[|c| - k..] == SizeSuffix(f.filesize)
    ensures var c, k := LinkOf(f, false).caption, |SizeSuffix(f.filesize)|;
      f.ext.Absent? ==> |c| >= k + 4 && c[|c| - k - 4..|c| - k] == " MP4"
  {
    VideoCaption(f);
    var num := IntToString(f.height.value);
    var q, e, z := VideoQuality(f.height.value), Upper(Ext(f, false).value), SizeSuffix(f.filesize);
    assert q == num + "p";
    VideoCaptionLayout(num, e, z);
    ParseIntToString(f.height.value);
    if f.ext.Absent? {
      assert Upper("mp4") == "MP4";
    }
  }

  /** Where the parts of `Download <height>p <ext><size>` sit. */
  lemma VideoCaptionLayout(num: string, e: string, z: string)
    ensures var c := "Download " + (num + "p") + " " + e + z;
      |c| == 11 + |num| + |e| + |z| && c[..9] == "Download " && c[9..9 + |num|] == num
      && c[9 + |num|] == 'p' && c[10 + |num|..|c| - |z|] == " " + e && c[|c| - |z|..] == z
  {
  }

  /** Where the parts of `Download Audio <quality> <ext><size>` sit. */
  lemma CaptionLayout(q: string, e: string, z: string)
    ensures var c := "Download Audio " + q + " " + e + z;
      |c| == 16 + |q| + |e| + |z| && c[..15] == "Download Audio " && c[15..15 + |q|] == q
      && c[|c| - |z|..] == z && c[|c| - |z| - |e| - 1..|c| - |z|] == " " + e
  {
  }

  /** A render loop raises exactly when one of the formats it renders does. */
  predicate NoneRaises(formats: seq<Format>, audio: bool)
  {
    forall i :: 0 <= i < |formats| && Shown(formats[i], audio) ==> LinkCrash(formats[i], audio).None?
  }

  /** A render loop's links are always a prefix of the links of all its shown formats;
      it finishes without an exception exactly when none of those raises, and then
      its links are all of them. */
  lemma {:induction false} RenderIsPrefix(formats: seq<Format>, audio: bool)
    ensures RenderSpec(formats, audio).links <= Select(formats, ShownAs(audio), LinkAs(audio))
    ensures RenderSpec(formats, audio).crash.None? <==> NoneRaises(formats, audio)
    ensures RenderSpec(formats, audio).crash.None? ==>
      RenderSpec(formats, audio).links == Select(formats, ShownAs(audio), LinkAs(audio))
  {
    if formats != [] {
      var init := formats[..|formats| - 1];
      RenderIsPrefix(init, audio);
      NoneRaisesSnoc(formats, audio);
      var last := formats[|formats| - 1];
      var sel := Select(init, ShownAs(audio), LinkAs(audio));
      var before := RenderSpec(init, audio);
      if Shown(last, audio) {
        PrefixExtends(before.links, sel, [LinkOf(last, audio)]);
      }
    }
  }

  /** A list renders without raising exactly when its front does and its last format,
      if shown, does not raise. */
  lemma NoneRaisesSnoc(formats: seq<Format>, audio: bool)
    requires formats != []
    ensures var init, last := formats[..|formats| - 1], formats[|formats| - 1];
      NoneRaises(formats, audio) <==>
        NoneRaises(init, audio) && (Shown(last, audio) ==> LinkCrash(last, audio).None?)
  {
    var init := formats[..|formats| - 1];
    assert forall i :: 0 <= i < |init| ==> init[i] == formats[i];
  }

  /** A prefix of `a` is a prefix of `a + b`. */
  lemma PrefixExtends<T>(p: seq<T>, a: seq<T>, b: seq<T>)
    requires p <= a
    ensures p <= a + b
  {
    assert (a + b)[..|a|] == a;
  }

  /** All the links the download options can show: every shown format of the three
      sections, in page order. */
  function FullLinks(formats: seq<Format>): seq<Link>
  {
    Select(Comprehension(formats, VideoWithAudio), ShownAs(false), LinkAs(false))
    + Select(Take(Comprehension(formats, VideoOnly), 5), ShownAs(false), LinkAs(false))
    + Select(Take(Comprehension(formats, AudioOnly), 3), ShownAs(true), LinkAs(true))
  }

  /** No format that one of the three sections renders raises. */
  predicate OptionsDoNotRaise(formats: seq<Format>)
  {
    NoneRaises(Comprehension(formats, VideoWithAudio), false)
    && NoneRaises(Take(Comprehension(formats, VideoOnly), 5), false)
    && NoneRaises(Take(Comprehension(formats, AudioOnly), 3), true)
  }

  /** The download options show a prefix of all their links in page order (video with
      audio, then video only, then audio); they finish exactly when no rendered format
      raises, and then show every one of those links. */
  lemma OptionsInPageOrder(formats: seq<Format>)
    ensures OptionsSpec(formats).links <= FullLinks(formats)
    ensures OptionsSpec(formats).crash.None? <==> OptionsDoNotRaise(formats)
    ensures OptionsSpec(formats).crash.None? ==> OptionsSpec(formats).links == FullLinks(formats)
  {
    var a := Comprehension(formats, VideoWithAudio);
    var b := Take(Comprehension(formats, VideoOnly), 5);
    var c := Take(Comprehension(formats, AudioOnly), 3);
    RenderIsPrefix(a, false);
    RenderIsPrefix(b, false);
    RenderIsPrefix(c, true);
    var sa, sb, sc := Select(a, ShownAs(false), LinkAs(false)), Select(b, ShownAs(false), LinkAs(false)),
      Select(c, ShownAs(true), LinkAs(true));
    ThenPrefix(RenderSpec(a, false), sa, RenderSpec(b, false), sb);
    ThenPrefix(Then(RenderSpec(a, false), RenderSpec(b, false)), sa + sb, RenderSpec(c, true), sc);
  }

  /** Rendering one section after another: the links stay a prefix of the two full
      lists, the pair finishes exactly when both do, and then shows both in full. */
  lemma ThenPrefix(x: Section, full1: seq<Link>, y: Section, full2: seq<Link>)
    requires x.links <= full1 && y.links <= full2
    requires x.crash.None? ==> x.links == full1
    requires y.crash.None? ==> y.links == full2
    ensures Then(x, y).links <= full1 + full2
    ensures Then(x, y).crash.None? <==> x.crash.None? && y.crash.None?
    ensures Then(x, y).crash.None? ==> Then(x, y).links == full1 + full2
  {
    if x.crash.Some? {
      PrefixExtends(x.links, full1, full2);
    } else {
      assert (full1 + full2)[..|full1| + |y.links|] == full1 + y.links;
    }
  }

  /** The download links of the whole page: none when the title, a representable
      duration or the format list is missing; otherwise a prefix of all the links of
      the formats, and all of them exactly when nothing on the page raises. */
  lemma PageLinks(info: Info)
    ensures info.formats.None? ==> PageSpec(info).links == [] && PageSpec(info).crash.Some?
    ensures info.formats.Some? ==> PageSpec(info).links <= FullLinks(info.formats.value)
    ensures PageSpec(info).crash.None? <==>
      (info.title.Present? || info.title.Null?)
      && (info.duration.None? || DurationInRange(info.duration.value))
      && info.formats.Some? && OptionsDoNotRaise(info.formats.value)
    ensures PageSpec(info).crash.None? ==> PageSpec(info).links == FullLinks(info.formats.value)
  {
    if info.formats.Some? {
      OptionsInPageOrder(info.formats.value);
    }
  }

  /** The markdown a rendered link writes: `[Download ...](<url>)`, with the format's
      own url as the target. */
  lemma MarkdownOfLink(f: Format, audio: bool)
    requires LinkCrash(f, audio).None? && f.url.Present?
    ensures var m := Markdown(LinkOf(f, audio));
      |m| >= 10 && m[..10] == "[Download " && EndsWith(m, "](" + f.url.value + ")")
  {
    var l := LinkOf(f, audio);
    MarkdownLayout(l.caption, l.href);
  }

  /** Where the caption and the target sit in `[caption](href)`. */
  lemma MarkdownLayout(caption: string, href: string)
    requires |caption| >= 9 && caption[..9] == "Download "
    ensures var m := Markdown(Link(caption, href));
      |m| >= 10 && m[..10] == "[Download " && EndsWith(m, "](" + href + ")")
  {
    var m := Markdown(Link(caption, href));
    assert m[1..10] == caption[..9];
  }
}
