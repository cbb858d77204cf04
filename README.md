# ashdi-download: a verified model of its string logic

`ashdi-download.py` downloads episodes from ashdi.vip. It does this in four steps:

1. It fetches a series page and finds the player `iframe`.
2. It fetches the player page and extracts the `file:` URL of the HLS master playlist.
3. It fetches that playlist and selects its first non-comment line.
4. If `--quality` is given and non-zero, it replaces the second-to-last path segment of that line with the quality number. It then has FFmpeg remux the stream into a file named after the URL's 4th-from-last segment.

For a season page, the script collects every episode link that starts with the season URL and downloads each one.

This project models the pure string logic of that pipeline, together with the Python string primitives it relies on. The chain of fetches and look-ups in `download_episode` is also modelled, with the network and the HTML searches passed in as functions.

Files:

- `wrappers.dfy` — `Option` and `Result`.
- `pystr.dfy` — module `PyStr`: Python's `str.split`, `str.rsplit` with `maxsplit`, `"/".join`, `str.startswith`, `str(int)` and `str.splitlines`.
  - `splitlines` breaks on Python's full boundary set: `\n`, `\r`, `\r\n`, `\x0b`, `\x0c`, `\x1c`, `\x1d`, `\x1e`, `\x85`, `\u2028` and `\u2029`.
  - `rsplit(sep, k)` is modelled as a split followed by re-joining all the pieces except the last `k`. `RSplitSpec` proves this agrees with the segment view.
- `ashdi_download.dfy` — module `AshdiDownload`:
  - manifest line selection (`ManifestLine`);
  - quality rewrite (`RewriteQuality`, `GetEpisodeUrl`);
  - output name (`OutputName`);
  - season link filter (`SeasonLinks`);
  - the per-episode chain (`DownloadEpisode`).

Errors are values of `AshdiDownload.Error`:

- `StopIteration`: `next` ran out of lines.
- `NotEnoughValues(expected, got)`: the `ValueError` raised by tuple unpacking after `rsplit`.
- `NoFileUrl`: the `AttributeError` raised when no script carries a `file:` URL.

None of these is a `ClientError`, so the `suppress` in `download_episode` lets all of them escape.

For `https://foo.ashdi.vip/stream/xyz/480/seg.ts` the output name is `stream`, not `xyz`: `rsplit("/", 4)` at `ashdi-download.py:82` takes the 4th-from-last segment. `AshdiDownload.WorkedExample` proves that this URL is saved as `stream.mp4`.

## Model

| member | source | states |
|---|---|---|
| AshdiDownload.IsComment | ashdi-download.py:72 | A line is a comment exactly when it is non-empty and its first character is `#`. |
| AshdiDownload.FirstNonComment | ashdi-download.py:72 | The result is None exactly when every line starts with `#`. Otherwise it is the index of a line that does not, and every earlier line does. |
| AshdiDownload.ManifestLine | ashdi-download.py:72 | It fails with StopIteration exactly when every line of `splitlines()` is a comment, including when the text has no lines. Otherwise it returns the first non-comment line, and every line before it is a comment. |
| AshdiDownload.ManifestLineSkipsComment | ashdi-download.py:72 | A leading comment line ended by a line feed does not change the selection. |
| AshdiDownload.ManifestLineSkipsComments | ashdi-download.py:72 | Any number of leading comment lines, each ended by a line feed, does not change the selection. |
| AshdiDownload.ManifestLineSelects | ashdi-download.py:72 | A first line that does not start with `#` is selected, even when it is empty. |
| AshdiDownload.ManifestLineOfLine | ashdi-download.py:72 | A text that is a single non-empty, non-comment line selects that line. |
| AshdiDownload.ManifestLineAfterComment | ashdi-download.py:72 | A comment line followed by a non-comment line selects the second line. |
| AshdiDownload.Truthy | ashdi-download.py:74 | A quality is falsy exactly when it is absent or 0, as Python's `if quality:` treats an optional integer. |
| AshdiDownload.RewriteQuality | ashdi-download.py:74-76 | A `None` or `0` quality returns the URL unchanged. A truthy quality fails exactly when the URL has fewer than two `/`, with an unpacking error giving 3 expected and `count + 1` got. |
| AshdiDownload.GetEpisodeUrl | ashdi-download.py:72-78 | A StopIteration from the manifest selection is passed on. Otherwise the result is the quality rewrite of the selected line, which for a falsy quality is that line itself. The only possible failures are StopIteration and the two unpacking errors with 1 or 2 values. |
| AshdiDownload.RewriteQualityText | ashdi-download.py:75-76 | The result is `begin + "/" + str(quality) + "/" + end`. Here `end` follows the last `/` and `begin` precedes the second-to-last `/`. |
| AshdiDownload.RewriteQualitySegments | ashdi-download.py:75-76 | The result's `/`-segments are the URL's, with the second-to-last replaced by `str(quality)`. The number of `/` is kept. |
| AshdiDownload.RewriteQualityKeepsOtherSegments | ashdi-download.py:75-76 | Every segment except the second-to-last is unchanged. |
| AshdiDownload.RewriteQualitySetsSegment | ashdi-download.py:75-76 | The second-to-last segment of the result is `str(quality)`, and the number of `/` is kept. |
| AshdiDownload.RewriteQualityIdempotent | ashdi-download.py:75-76 | Rewriting a successfully rewritten URL again with the same quality gives the same result. |
| AshdiDownload.RewriteQualityOfSegments | ashdi-download.py:75-76 | For a URL given as at least three `/`-free segments, the rewrite joins the same segments with `str(quality)` in place of the second-to-last. |
| AshdiDownload.OutputName | ashdi-download.py:82-83 | It fails exactly when the URL has fewer than four `/`, with an unpacking error giving 5 expected and `count + 1` got. Otherwise the name is the 4th-from-last segment, then `.`, then the output format. |
| AshdiDownload.OutputNameBySegments | ashdi-download.py:82-83 | Two URLs with the same number of `/` and the same 4th-from-last segment get the same name or the same error. |
| AshdiDownload.OutputNameOfSegments | ashdi-download.py:82-83 | For a URL given as at least five `/`-free segments, the name is its 4th-from-last segment plus `.` and the format. |
| AshdiDownload.RewritePreservesOutputName | ashdi-download.py:75-83 | A successful quality rewrite never changes the derived name or its error. |
| AshdiDownload.SeasonLinks | ashdi-download.py:103 | An href is in the result exactly when it is in the input and starts with the season URL. The result is no longer than the input. |
| AshdiDownload.SeasonLinksAppend | ashdi-download.py:103 | Filtering a concatenation concatenates the filtered parts, so document order is kept. |
| AshdiDownload.SeasonLinksSingle | ashdi-download.py:103 | One href is kept exactly when it starts with the season URL. |
| AshdiDownload.SeasonLinksCounts | ashdi-download.py:103 | A matching href occurs as often in the result as in the input, and a non-matching one never occurs. |
| AshdiDownload.SeasonLinksIdempotent | ashdi-download.py:103 | Filtering a filtered list again changes nothing. |
| AshdiDownload.DownloadEpisode | ashdi-download.py:88-95 | A `ClientError` or a missing or empty player `src` on the first page skips the episode. Every download it returns uses the name `OutputName` derives from its input URL. |
| AshdiDownload.DownloadEpisodeResolved | ashdi-download.py:88-95 | When every step resolves, the episode is remuxed from the rewritten manifest line into its derived name. It raises exactly when that URL has fewer than four `/`. |
| AshdiDownload.DownloadEpisodeSkipsClientError | ashdi-download.py:91-94 | A `ClientError` from the player-page fetch, or from the manifest fetch, also skips the episode. |
| AshdiDownload.DownloadEpisodeRaises | ashdi-download.py:91-94 | StopIteration or an unpacking error from the manifest step escapes `suppress(ClientError)`. |
| AshdiDownload.DownloadEpisodeNoFileUrl | ashdi-download.py:62-65 | A player page without a `file:` script raises instead of skipping the episode. |
| AshdiDownload.WorkedExample | ashdi-download.py:72-83 | The manifest is `#comment`, a line feed, then `https://foo.ashdi.vip/stream/xyz/720/seg.ts`. With quality 480 this yields `.../xyz/480/seg.ts`, and that URL is saved as `stream.mp4`. |
| PyStr.Split | ashdi-download.py:75 | `str.split(sep)` gives one more piece than there are separators. |
| PyStr.SplitPieces | ashdi-download.py:75 | No piece of a split contains the separator. |
| PyStr.Join | ashdi-download.py:76 | `sep.join(xs)`: the pieces in order, with one separator between each pair. Its properties are stated by `JoinSplit`, `SplitJoin`, `JoinAppend` and `JoinStartsWithFirst`. |
| PyStr.JoinStartsWithFirst | ashdi-download.py:76 | A join of a non-empty list starts with its first piece. |
| PyStr.JoinSplit | ashdi-download.py:76 | Joining the pieces of a split with the same separator gives back the string. |
| PyStr.SplitJoin | ashdi-download.py:76 | Splitting a join of separator-free pieces gives back the pieces. |
| PyStr.JoinAppend | ashdi-download.py:76 | A join of two non-empty lists is the two joins with one separator between them. |
| PyStr.RSplit | ashdi-download.py:75 | `rsplit(sep, k)` gives `min(count, k) + 1` pieces. |
| PyStr.RSplitSpec | ashdi-download.py:75 | The pieces of `rsplit(sep, k)` join back to the string. The last pieces are the last segments of `split`, and the first piece is the join of the remaining leading segments. |
| PyStr.StartsWith | ashdi-download.py:72 | `startswith(prefix)` holds exactly when `prefix` is a prefix of the string. |
| PyStr.NatToStr | ashdi-download.py:76 | `str(n)` is non-empty and all digits, has no leading zero unless `n` is 0, and is one character exactly when `n < 10`. |
| PyStr.IntToStr | ashdi-download.py:76 | `str(i)` is non-empty, starts with `-` exactly when `i < 0`, and contains only digits apart from that sign. |
| PyStr.IntToStrRoundTrip | ashdi-download.py:76 | Reading the decimal text of `str(i)` gives back `i`. |
| PyStr.IntToStrInjective | ashdi-download.py:76 | Distinct integers have distinct decimal texts. |
| PyStr.LineBreakCodes | ashdi-download.py:72 | `IsLineBreak` holds for exactly the code points U+000A to U+000D, U+001C to U+001E, U+0085, U+2028 and U+2029, which are the boundaries of Python's `str.splitlines`. |
| PyStr.TakeLine | ashdi-download.py:72 | It returns the first line, the boundary ending it and the rest, and these reassemble the text. The line contains no boundary, and a lone `\r` is never followed by `\n`. |
| PyStr.TakeLineUnique | ashdi-download.py:72 | Any decomposition into a boundary-free line, a single boundary and the rest is the one `TakeLine` finds. |
| PyStr.SplitLines | ashdi-download.py:72 | No line of `splitlines()` contains a boundary, and there are no lines exactly when the text is empty. |
| PyStr.SplitLinesCons | ashdi-download.py:72 | A boundary-free line, one boundary (a lone `\r` not followed by `\n`), then the rest: `splitlines()` gives that line followed by the lines of the rest. |
| PyStr.SplitLinesNewline | ashdi-download.py:72 | A line ended by a line feed is the first line, followed by the lines of the rest. |
| PyStr.SplitLinesOfLine | ashdi-download.py:72 | A non-empty text without a boundary is one line. |
| PyStr.SplitLinesTerminated | ashdi-download.py:72 | For lines each ended by a line feed, `splitlines()` returns exactly those lines, followed by the lines of what comes after. |

## Left out

- Option handling with click and optgroup (`ashdi-download.py:13-28`): a command-line library. Quality is an `Option<int>` parameter and the output format a string parameter.
- The session-injecting decorator (`ashdi-download.py:31-40`): only resource plumbing.
- Concurrent fan-out with `asyncio.gather` (`ashdi-download.py:43-46`, `107-113`): concurrency is not modelled. `download_season` is the filter `SeasonLinks` followed by one `DownloadEpisode` per link.
- HTTP requests (`ashdi-download.py:50-51`, `59-60`, `69-70`, `99-100`): network I/O becomes the `get` parameter of `DownloadEpisode`, which returns a body or a `ClientError`.
- BeautifulSoup searches and regular expressions (`ashdi-download.py:53-55`, `62-65`, the anchor search at `103`): a foreign HTML parser and regex engine. They become the `findIframe` and `findFileUrl` parameters, and the season filter takes the `href` values as a list of strings.
- The FFmpeg call (`ashdi-download.py:84-85`): an external process. The model stops at the `Download` record it would be given.
- An anchor without an `href`: BeautifulSoup then calls the filter with `None`, and `None.startswith` raises. Hrefs here are always strings.
- DownloadEpisode: a `StopIteration` raised inside a coroutine reaches the caller as `RuntimeError`. The model keeps the name `StopIteration`; either way it is not suppressed.
- Text bodies are strings of characters. Decoding HTTP bytes is not modelled.
