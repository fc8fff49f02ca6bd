# video-downloader-app, modelled in Dafny

The repository has two front ends over yt-dlp.

- `api/app.py` is a Flask API. `POST /api/video-info` returns a trimmed info dict with the list of downloadable formats. `POST /api/download-links` splits the formats into three buckets: video with audio, video only (at most 5) and audio only (at most 3).
- `app.py` is a Streamlit page. It fetches the same info dict and renders markdown download links in the same three sections. A section gets a link for each of these formats:
  - video with audio: every format with a height;
  - video only: each format with a height among the first 5;
  - audio only: each of the first 3.

This project models the core of both programs:

- the request checks;
- how the info dict and each format record are read, including Python's missing-key, None-value and falsy-value rules;
- the codec classification;
- the bucketing loop and its truncation;
- the format projection;
- the three Streamlit comprehensions and their render loops, including where an exception stops the page;
- the two formatters, `format_views` and `format_duration`.

Modules, one file each:

- `PyValues` (`pyvalues.dfy`): dict lookups with and without a default, truthiness, `str()` of an integer, `str.upper()`.
- `Sequences` (`sequences.dfy`): `append`-loop selection, filtering, slicing `[:n]`, and the positions a selection keeps.
- `Formatting` (`formatting.dfy`): the f-string `:.1f` of a true division, `format_views`, and `str(timedelta(seconds=n))`.
- `Formats` (`formats.dfy`): the format record and info dict, `get_video_info`, the codec test, and the quality and size labels.
- `Api` (`api.dfy`): both Flask endpoints.
- `Streamlit` (`streamlit.dfy`): the Streamlit page.

Each loop of the source is a `method` with a loop. It is proved equal to a recursive specification function over the input list, and the lemmas state what the source promises about that function.

How Python is modelled:

- A dict key whose presence is observable is a `Field` (`Absent | Null | Present`): a format's `url` and `ext`, and the info dict's `title`. Every other key is an `Option`, because `.get(k)` reads a missing key and None alike.
- `f"{n/d:.1f}"` is modelled to the digit, in two steps. First, `n/d` is rounded to the nearest double (a 53-bit significand, ties to even). Then that double is rounded half-to-even to one decimal.
- `str(timedelta(seconds=n))` is modelled over its whole range, including negative durations and the day prefix. Beyond ±999999999 days `timedelta` raises OverflowError. The API then answers with a server error, and the Streamlit page stops.

## Behaviour worth noting

- Any `url` value passes, including the empty string. Only a body without the `url` key is refused, at `api/app.py:85-86` and `api/app.py:131-132`. The Streamlit page does refuse an empty url box, at `app.py:55`.
- No bucket is sorted. Buckets keep yt-dlp's order and are truncated in that order.
- There is no fallback synthesis of a combined format, no platform classifier and no error taxonomy. A failed extraction returns the message alone, with status 400.
- The API drops heightless video formats before truncating to 5. The Streamlit page truncates to 5 first and then skips heightless ones, so it can show fewer than 5 video-only links when more exist (`Streamlit.VideoOnlyCanShowFewerThanFive`).

## Model

| member | source | states |
|---|---|---|
| PyValues.ParseIntToString | api/app.py:63 | `str` of any integer reads back as that integer |
| PyValues.ParseIntExact | api/app.py:63 | a text reads back as `i` exactly when it is `str(i)`: no leading zero, no `-0`, so a read-back fixes the text of a count, height or bitrate |
| PyValues.Upper | app.py:98 | `ext.upper()` keeps the length and capitalises each ASCII letter in place |
| Formatting.NearestDouble | api/app.py:114 | a true division `n/d` gives the double with a 53-bit significand at the exponent that fits the quotient, within half a unit in the last place of it, a tie going to the even significand |
| Formatting.RoundHalfEven | api/app.py:114 | rounding to the nearest integer is within half a step of the exact value, and a tie goes to the even neighbour |
| Formatting.Fixed1 | api/app.py:114 | `:.1f` text ends in a point and exactly one digit, and starts with a minus sign exactly when the value is negative |
| Formatting.FormatViews | api/app.py:57-63 | below 1000 the text is exactly `str(views)` (its read-back, with ParseIntExact) followed by ` views`; from 1000 it ends in `K views`, from 1000000 in `M views`, with one decimal |
| Formatting.ViewsExamples | app.py:45-51 | 999, 1500 and 2000000 views print as `999 views`, `1.5K views` and `2.0M views` |
| Formatting.DurationWithinDay | api/app.py:53-54 | a duration under a day prints as `H:MM:SS` with an unpadded hour and minutes and seconds below 60 as two digits each, and parsing the text back gives the seconds |
| Formatting.FormatDuration | api/app.py:53-54 | every duration in range, day prefix included, parses back to its seconds; the prefix says `day` exactly for a count of 1 or -1; a negative duration starts with `-` |
| Formatting.DurationExample | app.py:41-42 | 3661 seconds print as `1:01:01` |
| Formats.GetVideoInfo | api/app.py:34-50 | an extracted dict is passed through; a DownloadError gives its own message; any other exception gives the message behind the `An unexpected error occurred: ` prefix |
| Formats.Classify | api/app.py:158-172 | each bucket is exactly one combination of the two `'none'` tests, so a format has at most one kind; a missing codec counts as not `'none'` |
| Formats.VideoQualityReadsBack | api/app.py:163 | a video quality is the height followed by `p`, and the height reads back from it; with ParseIntExact the part before `p` is exactly `str(height)` |
| Formats.AudioQualityReadsBack | api/app.py:170-171 | an audio quality is the bitrate followed by `kbps` when the bitrate is truthy (with ParseIntExact the part before `kbps` is exactly `str(abr)`), and `Unknown quality` exactly when it is missing or zero |
| Formats.SizeFormatted | api/app.py:152 | `filesize_formatted` is present exactly when the file size is truthy, and then is the size in MiB with one decimal followed by ` MB` |
| Api.RequestedUrl | api/app.py:83-88 | the url is found exactly when a JSON object body has the `url` key, and is that key's value |
| Api.Summary | api/app.py:108-120 | a format's summary has `ext` `mp4` for a missing key, None for a None value, and the value otherwise; the url of the format; a formatted size exactly when the size is truthy; the other keys copied |
| Api.SummarizeFormats | api/app.py:105-121 | the loop's output equals the projection of the formats that have a `url` key |
| Api.SummariesOnePerUrl | api/app.py:105-121 | the listing has one entry per format with a `url` key, in input order; `ext` becomes `mp4` for a missing key, None for a None value and is kept otherwise; a formatted size is present exactly when the size is truthy |
| Api.FormatVideoInfo | api/app.py:95-121 | the details take id, title, thumbnail and uploader from the dict; duration and views are formatted with 0 for a missing key; the formats are projected |
| Api.VideoInfoEndpoint | api/app.py:80-123 | a body without `url` gets 400 `URL is required` before the backend is asked; an extraction error gets 400 with its message; otherwise the formatted details, or a server error when the duration overflows |
| Api.Entry | api/app.py:147-171 | a video entry's quality is exactly `str(height)` and `p`; an audio entry's is `str(abr)` and `kbps` for a truthy bitrate and `Unknown quality` exactly otherwise; url, `ext` default and formatted size as in the summary |
| Api.CollectDownloadLinks | api/app.py:140-178 | the loop's result is every admitted video-with-audio entry, the first 5 admitted video-only entries and the first 3 admitted audio-only entries |
| Api.DownloadLinksEndpoint | api/app.py:126-178 | a body without `url` gets 400 before the backend is asked; an extraction error gets 400 with its message; otherwise the three buckets (empty when `formats` is missing) |
| Api.BucketSources | api/app.py:145-172 | a bucket holds exactly one entry for each format the loop admits to it, in input order |
| Api.BucketsDisjoint | api/app.py:161-172 | no format feeds two buckets, and one whose codecs are both `'none'` feeds none |
| Api.EntriesCarryUrl | api/app.py:146-156 | every entry comes from an input format with a `url` key and carries that format's url and format id |
| Api.VideoEntriesHaveHeight | api/app.py:161-168 | video entries all have a truthy height and the quality `<height>p`; a format whose height is missing or zero is in neither video bucket |
| Api.AudioEntriesUnfiltered | api/app.py:169-172 | every audio-only format with a `url` key is admitted whatever its bitrate, and is labelled by its bitrate or `Unknown quality` |
| Api.DownloadLinksTruncation | api/app.py:174-178 | video-only and audio-only are prefixes of their buckets, of length min(5, n) and min(3, n) |
| Streamlit.LinkCrash | app.py:94-98 | rendering a link raises exactly when the extension is None (first, at `.upper()`) or the `url` key is missing; with the `ext` default, only an `ext` mapped to None raises at `.upper()` |
| Streamlit.LinkOf | app.py:92-98 | a link's caption starts with `Download ` and ends with the size suffix, and its target is the format's url (`None` for a url mapped to None) |
| Streamlit.MarkdownOfLink | app.py:98 | the markdown written for a link is `[Download ...](<url>)` with the format's own url |
| Streamlit.RenderSpec | app.py:91-98 | one render loop renders at most one link per format |
| Streamlit.CrashSticks | app.py:98 | once an exception stops a render loop, later formats change nothing |
| Streamlit.RenderLinks | app.py:91-98 | the render loop, with its early stop at the first exception, equals the element-by-element specification |
| Streamlit.RenderDownloadOptions | app.py:88-124 | the three comprehensions and their loops run in page order, the video-only one over `[:5]` and the audio one over `[:3]` |
| Streamlit.GetDownloadLinks | app.py:54-88 | an empty url box shows the prompt; an extraction error shows `Error: ` and its message; otherwise the page stops at a missing title, an overflowing duration or missing formats, or renders the download options |
| Streamlit.PageSpec | app.py:76-124 | a missing title stops the page first, then a duration `timedelta` refuses, then missing formats; the page finishes only with a title and a format list |
| Streamlit.PageLinks | app.py:76-124 | the page shows a prefix of all the formats' links, none when title, a representable duration or formats are missing, and all of them exactly when nothing on the page raises |
| Streamlit.ComprehensionsDisjoint | app.py:88-114 | each comprehension keeps exactly the formats of its codec kind, in input order, and no format is in two of them |
| Streamlit.RenderWithoutCrash | app.py:91-98 | when no shown format raises, a loop renders one link per format with a truthy height (or every format, for audio), in order |
| Streamlit.CombinedLinksComplete | app.py:88-98 | when none of them raises, every video-with-audio format with a truthy height gets its link, once and in order, with no limit on their number |
| Streamlit.VideoOnlyFromFirstFive | app.py:101-111 | the video-only section has at most 5 links, taken from the heighted formats among the first 5 video-only ones |
| Streamlit.VideoOnlyCanShowFewerThanFive | app.py:104-105 | heightless formats among the first five take places: more than 5 heighted video-only formats can still render no link |
| Streamlit.RenderEvery | app.py:117-124 | a loop in which every format renders, and none raises, gives exactly one link per format, in order |
| Streamlit.AudioFirstThree | app.py:114-124 | when none of them raises, each of the first 3 audio-only formats gets its link, whatever its bitrate; the caption names the bitrate and the extension, which defaults to `mp3` |
| Streamlit.VideoCaptionParts | app.py:92-98 | a video caption is `Download `, exactly `str(height)` (it reads back), `p`, a space and the upper-cased extension (`MP4` when `ext` is missing), then the size suffix |
| Streamlit.AudioCaptionParts | app.py:118-124 | an audio caption starts with `Download Audio `; its quality part is the bitrate (which reads back) and `kbps`, or `Unknown quality` for a missing or zero bitrate; the extension is `MP3` when `ext` is missing; it ends with the size suffix |
| Streamlit.SizeSuffix | app.py:95-96 | the size part of a caption is empty exactly when the size is missing or zero, and otherwise reads ` - <size> MB` |
| Streamlit.OptionsInPageOrder | app.py:88-124 | the page shows a prefix of the shown formats' links in page order (video with audio, first 5 video only, first 3 audio); it finishes exactly when none of those raises, and then shows all of them |

## Left out

- The yt-dlp call is not modelled. `ydl.extract_info` is a parameter (`backend`) that returns an info dict or raises. The model takes its result as given.
- The API-key decorator, `GET /`, `GET /api/get-key`, CORS, key generation and the server start (`api/app.py:11-31`, `api/app.py:65-77`, `api/app.py:180-183`) are not modelled: they involve no data processing.
- Streamlit layout is left out: the page title, spinner, columns, the thumbnail image and the section headers. A rendered link is only its caption and its target.
- The text of the Streamlit video details (`**Title:**`, `**Duration:**`, `**Views:**`, `**Uploader:**` at `app.py:76-82`) is not modelled. The model keeps only the exceptions those lines raise (a missing title, a duration `timedelta` refuses), in `Streamlit.PageSpec`.
- Request bodies that are JSON but not an object are left out. The body is either the JSON `null` or a map from strings to strings.
- A request whose content type is not JSON is left out: Flask's `get_json()` rejects it on its own before the `url` check runs.
- An `error` key inside the info dict that yt-dlp itself returns is not modelled. The model tells a failure from a success by how `get_video_info` returned, not by that key.
- `duration`, `view_count` or `formats` present but mapped to None are not modelled; Python would raise TypeError. Here such a key reads as missing.
- Bitrates are restricted to integers on purpose. yt-dlp usually reports `abr` as a float, and `f"{abr}kbps"` then prints its float text (`129.5kbps`, `128.0kbps`). Float printing is not modelled. Duration, views, height and size are integers too.
- Formatting.Fixed1: exact only while the scaled quotient stays below 2^52. Beyond that, the significand rule for huge integers and the conversion of huge integers to float are not modelled.
- PyValues.Upper: capitalises ASCII letters only. Python's full Unicode case mapping is not modelled.
- The React client `api/example-react-component.jsx` is not part of this model.
