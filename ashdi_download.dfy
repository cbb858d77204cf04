/**
 * The string logic of the ashdi downloader: choosing the stream line of an
 * HLS manifest, rewriting its quality segment, deriving the output file name,
 * filtering a season page's episode links, and the per-episode resolution
 * chain that strings these together.
 */
module AshdiDownload {
  import opened Wrappers
  import opened PyStr

  /** The exceptions the modelled code can raise that nothing catches. */
  datatype Error =
    /** `next` on an exhausted generator: no non-comment manifest line. */
    | StopIteration
    /** `ValueError` from tuple unpacking: too few pieces after `rsplit`. */
    | NotEnoughValues(expected: nat, got: nat)
    /** `AttributeError` on `None`: no script carries a `file:` URL. */
    | NoFileUrl

  // ---------------------------------------------------------------------
  // get_episode_url: the manifest line

  /** A manifest line starting with `#` is a comment or a tag. */
  predicate IsComment(line: string): (b: bool)
    ensures b <==> |line| > 0 && line[0] == '#'
  {
    StartsWith(line, "#")
  }

  /** Index of the first line that is not a comment, if any. */
  function FirstNonComment(lines: seq<string>): (r: Option<nat>)
    ensures r.None? <==> forall i :: 0 <= i < |lines| ==> IsComment(lines[i])
    ensures r.Some? ==> r.value < |lines| && !IsComment(lines[r.value])
    ensures r.Some? ==> forall j :: 0 <= j < r.value ==> IsComment(lines[j])
  {
    if |lines| == 0 then None
    else if !IsComment(lines[0]) then Some(0)
    else
      match FirstNonComment(lines[1..])
      case None =>
        assert forall i :: 1 <= i < |lines| ==> lines[i] == lines[1..][i - 1];
        None
      case Some(k) =>
        assert forall j :: 1 <= j < k + 1 ==> lines[j] == lines[1..][j - 1];
        Some(k + 1)
  }

  /**
   * `next(line for line in text.splitlines() if not line.startswith("#"))`:
   * the first line of the text that is not a comment, or `StopIteration`.
   */
  function ManifestLine(text: string): (r: Result<string, Error>)
    ensures var lines := SplitLines(text);
      r.Err? <==> forall i :: 0 <= i < |lines| ==> IsComment(lines[i])
    ensures r.Err? ==> r.error == StopIteration
    ensures var lines := SplitLines(text);
      r.Ok? ==> exists k :: 0 <= k < |lines| && lines[k] == r.value
                 && !IsComment(lines[k])
                 && forall j :: 0 <= j < k ==> IsComment(lines[j])
  {
    var lines := SplitLines(text);
    match FirstNonComment(lines)
    case None => Err(StopIteration)
    case Some(k) => Ok(lines[k])
  }

  // ---------------------------------------------------------------------
  // get_episode_url: the quality rewrite

  /** Python truthiness of the optional `--quality` integer. */
  predicate Truthy(quality: Option<int>): (b: bool)
    ensures !b <==> quality == None || quality == Some(0)
  {
    quality.Some? && quality.value != 0
  }

  /**
   * `begin, _, end = url.rsplit("/", 2); url = "/".join([begin, str(quality), end])`
   * when `quality` is truthy; the URL itself otherwise.
   */
  function RewriteQuality(url: string, quality: Option<int>): (r: Result<string, Error>)
    ensures !Truthy(quality) ==> r == Ok(url)
    ensures Truthy(quality) ==> (r.Err? <==> Count(url, '/') < 2)
    ensures r.Err? ==> r.error == NotEnoughValues(3, Count(url, '/') + 1)
  {
    if !Truthy(quality) then Ok(url)
    else
      var parts := RSplit(url, '/', 2);
      if |parts| < 3 then Err(NotEnoughValues(3, |parts|))
      else Ok(Join([parts[0], IntToStr(quality.value), parts[2]], '/'))
  }

  /** `get_episode_url` after the fetch: the manifest line, then the rewrite. */
  function GetEpisodeUrl(text: string, quality: Option<int>): (r: Result<string, Error>)
    ensures !Truthy(quality) ==> r == ManifestLine(text)
    ensures ManifestLine(text).Err? ==> r == ManifestLine(text)
    ensures ManifestLine(text).Ok? ==> r == RewriteQuality(ManifestLine(text).value, quality)
    ensures r.Err? ==> r.error == StopIteration || r.error == NotEnoughValues(3, 2)
                       || r.error == NotEnoughValues(3, 1)
  {
    match ManifestLine(text)
    case Err(e) => Err(e)
    case Ok(line) => RewriteQuality(line, quality)
  }

  // ---------------------------------------------------------------------
  // download_playlist: the output name

  /** The `k`-th `/`-separated segment of `url` counted from the end (the last is 1). */
  function SegmentFromEnd(url: string, k: nat): string
    requires 1 <= k <= Count(url, '/') + 1
  {
    var segs := Split(url, '/');
    segs[|segs| - k]
  }

  /** `_, name, _, _, _ = url.rsplit("/", 4)` and `f"{name}.{output_format}"`. */
  function OutputName(url: string, outputFormat: string): (r: Result<string, Error>)
    ensures r.Err? <==> Count(url, '/') < 4
    ensures r.Err? ==> r.error == NotEnoughValues(5, Count(url, '/') + 1)
    ensures r.Ok? ==> r.value == SegmentFromEnd(url, 4) + "." + outputFormat
  {
    var parts := RSplit(url, '/', 4);
    RSplitSpec(url, '/', 4);
    if |parts| < 5 then Err(NotEnoughValues(5, |parts|))
    else Ok(parts[1] + "." + outputFormat)
  }

  // ---------------------------------------------------------------------
  // get_episode_urls: the season filter

  /** `[href for href in hrefs if href.startswith(season)]`, in document order. */
  function SeasonLinks(hrefs: seq<string>, season: string): (r: seq<string>)
    ensures |r| <= |hrefs|
    ensures forall h :: h in r <==> h in hrefs && StartsWith(h, season)
  {
    if hrefs == [] then []
    else
      assert forall h :: h in hrefs <==> h == hrefs[0] || h in hrefs[1..];
      (if StartsWith(hrefs[0], season) then [hrefs[0]] else [])
        + SeasonLinks(hrefs[1..], season)
  }

  // ---------------------------------------------------------------------
  // download_episode: the resolution chain

  /** What `session.get(url)` followed by `response.text()` yields. */
  datatype Fetch = Body(text: string) | ClientError

  /** The remux job handed to FFmpeg: input URL and output file name. */
  datatype Download = Download(input: string, output: string)

  /**
   * `download_episode` with the network and the HTML searches as parameters:
   * `get` for the fetches, `findIframe` for the iframe `src` search and
   * `findFileUrl` for the `file:` script search. `Ok(None)` is a skipped
   * episode (no player, or a `ClientError` swallowed by `suppress`);
   * `Err` is an exception that escapes it.
   */
  function DownloadEpisode(
    url: string, quality: Option<int>, outputFormat: string,
    get: string -> Fetch,
    findIframe: string -> Option<string>,
    findFileUrl: string -> Option<string>): (r: Result<Option<Download>, Error>)
    ensures get(url).ClientError? ==> r == Ok(None)
    ensures get(url).Body? && findIframe(get(url).text) in {None, Some("")} ==> r == Ok(None)
    ensures r.Ok? && r.value.Some? ==>
      OutputName(r.value.value.input, outputFormat) == Ok(r.value.value.output)
  {
    match get(url)
    case ClientError => Ok(None)
    case Body(page) =>
      match findIframe(page)
      case None => Ok(None)
      case Some(player) =>
        if player == "" then Ok(None)
        else
          match get(player)
          case ClientError => Ok(None)
          case Body(frame) =>
            match findFileUrl(frame)
            case None => Err(NoFileUrl)
            case Some(qualityUrl) =>
              match get(qualityUrl)
              case ClientError => Ok(None)
              case Body(manifest) =>
                match GetEpisodeUrl(manifest, quality)
                case Err(e) => Err(e)
                case Ok(episodeUrl) =>
                  match OutputName(episodeUrl, outputFormat)
                  case Err(e) => Err(e)
                  case Ok(output) => Ok(Some(Download(episodeUrl, output)))
  }

  // ---------------------------------------------------------------------
  // Properties of the manifest line selection

  /** A leading comment line is skipped. */
  lemma ManifestLineSkipsComment(c: string, rest: string)
    requires IsLine(c) && IsComment(c)
    ensures ManifestLine(c + "\n" + rest) == ManifestLine(rest)
  {
    SplitLinesNewline(c, rest);
    var lines := SplitLines(rest);
    assert ([c] + lines)[1..] == lines;
  }

  /** Any number of leading comment lines, whatever they say, is skipped. */
  lemma {:induction false} ManifestLineSkipsComments(comments: seq<string>, rest: string)
    requires forall i :: 0 <= i < |comments| ==> IsLine(comments[i]) && IsComment(comments[i])
    ensures ManifestLine(Terminated(comments) + rest) == ManifestLine(rest)
  {
    if comments == [] {
      assert Terminated(comments) + rest == rest;
    } else {
      var tail := Terminated(comments[1..]) + rest;
      assert Terminated(comments) + rest == comments[0] + "\n" + tail;
      ManifestLineSkipsComment(comments[0], tail);
      assert forall i :: 0 <= i < |comments[1..]| ==> comments[1..][i] == comments[i + 1];
      ManifestLineSkipsComments(comments[1..], rest);
    }
  }

  /** A non-comment line is selected, an empty line included. */
  lemma ManifestLineSelects(line: string, rest: string)
    requires IsLine(line) && !IsComment(line)
    ensures ManifestLine(line + "\n" + rest) == Ok(line)
  {
    SplitLinesNewline(line, rest);
  }

  // ---------------------------------------------------------------------
  // Properties of the quality rewrite

  lemma IntToStrHasNoSlash(i: int)
    ensures '/' !in IntToStr(i)
  {
    var t := IntToStr(i);
    forall k | 0 <= k < |t| ensures t[k] != '/' {
      assert IsDigit(t[k]) || t[k] == '-';
    }
  }

  /**
   * With a truthy quality and at least two `/`, the result is
   * `begin + "/" + str(quality) + "/" + end`, where `end` follows the last
   * `/` and `begin` precedes the second-to-last.
   */
  lemma RewriteQualityText(url: string, quality: Option<int>)
    requires Truthy(quality) && Count(url, '/') >= 2
    ensures var segs := Split(url, '/');
      var n := |segs|;
      RewriteQuality(url, quality)
        == Ok(Join(segs[..n - 2], '/') + "/" + IntToStr(quality.value) + "/" + segs[n - 1])
  {
    var segs := Split(url, '/');
    var n := |segs|;
    var parts := RSplit(url, '/', 2);
    RSplitSpec(url, '/', 2);
    assert parts[0] == Join(segs[..n - 2], '/');
    assert parts[2] == segs[n - 1];
    var q := IntToStr(quality.value);
    assert RewriteQuality(url, quality) == Ok(Join([parts[0], q, parts[2]], '/'));
    JoinThree(parts[0], q, parts[2], '/');
  }

  /**
   * The segments of the rewritten URL are those of the URL with the
   * second-to-last replaced by `str(quality)`, so the number of `/` is kept.
   */
  lemma RewriteQualitySegments(url: string, quality: Option<int>)
    requires Truthy(quality) && Count(url, '/') >= 2
    ensures var segs, q := Split(url, '/'), IntToStr(quality.value);
      var n := |segs|;
      && Split(RewriteQuality(url, quality).value, '/') == segs[..n - 2] + [q, segs[n - 1]]
      && Count(RewriteQuality(url, quality).value, '/') == Count(url, '/')
  {
    var segs, q := Split(url, '/'), IntToStr(quality.value);
    var n := |segs|;
    var r := RewriteQuality(url, quality).value;
    var begin, end := Join(segs[..n - 2], '/'), segs[n - 1];
    RewriteQualityText(url, quality);
    assert r == begin + "/" + q + "/" + end;
    var all := segs[..n - 2] + [q, end];
    JoinAppend(segs[..n - 2], [q, end], '/');
    assert Join([q, end], '/') == q + ['/'] + end by {
      assert [q, end][1..] == [end];
    }
    Associative5(begin, "/", q, "/", end);
    assert r == Join(all, '/');
    IntToStrHasNoSlash(quality.value);
    SplitPieces(url, '/');
    assert forall i :: 0 <= i < |all| ==> '/' !in all[i];
    SplitJoin(all, '/');
  }

  /** Every segment but the second-to-last is left as it was. */
  lemma RewriteQualityKeepsOtherSegments(url: string, quality: Option<int>, i: nat)
    requires Truthy(quality) && Count(url, '/') >= 2
    requires i < Count(url, '/') + 1 && i != Count(url, '/') - 1
    ensures var r := Split(RewriteQuality(url, quality).value, '/');
      |r| == Count(url, '/') + 1 && r[i] == Split(url, '/')[i]
  {
    RewriteQualitySegments(url, quality);
  }

  /** The second-to-last segment becomes `str(quality)`. */
  lemma RewriteQualitySetsSegment(url: string, quality: Option<int>)
    requires Truthy(quality) && Count(url, '/') >= 2
    ensures Count(RewriteQuality(url, quality).value, '/') == Count(url, '/')
    ensures SegmentFromEnd(RewriteQuality(url, quality).value, 2) == IntToStr(quality.value)
  {
    RewriteQualitySegments(url, quality);
  }

  /** Rewriting twice with the same quality is rewriting once. */
  lemma RewriteQualityIdempotent(url: string, quality: Option<int>)
    requires RewriteQuality(url, quality).Ok?
    ensures RewriteQuality(RewriteQuality(url, quality).value, quality)
            == RewriteQuality(url, quality)
  {
    if Truthy(quality) {
      var segs, q := Split(url, '/'), IntToStr(quality.value);
      var n := |segs|;
      var once := RewriteQuality(url, quality).value;
      RewriteQualitySegments(url, quality);
      RewriteQualitySegments(once, quality);
      var segs2 := Split(once, '/');
      assert segs2[..n - 2] == segs[..n - 2];
      assert segs2[n - 1] == segs[n - 1];
    }
  }

  /** Two URLs with as many segments and the same 4th-from-last one give the same name. */
  lemma OutputNameBySegments(u: string, v: string, outputFormat: string)
    requires Count(u, '/') == Count(v, '/')
    requires Count(u, '/') >= 4 ==> SegmentFromEnd(u, 4) == SegmentFromEnd(v, 4)
    ensures OutputName(u, outputFormat) == OutputName(v, outputFormat)
  {
  }

  /** The rewrite never changes the derived output name. */
  lemma RewritePreservesOutputName(url: string, quality: Option<int>, outputFormat: string)
    requires RewriteQuality(url, quality).Ok?
    ensures OutputName(RewriteQuality(url, quality).value, outputFormat)
            == OutputName(url, outputFormat)
  {
    if Truthy(quality) {
      var r := RewriteQuality(url, quality).value;
      RewriteQualitySetsSegment(url, quality);
      if Count(url, '/') >= 4 {
        RewriteQualityKeepsOtherSegments(url, quality, Count(url, '/') - 3);
      }
      OutputNameBySegments(r, url, outputFormat);
    }
  }

  // ---------------------------------------------------------------------
  // Properties of the season filter

  /** The filter commutes with concatenation: document order is kept. */
  lemma {:induction false} SeasonLinksAppend(a: seq<string>, b: seq<string>, season: string)
    ensures SeasonLinks(a + b, season) == SeasonLinks(a, season) + SeasonLinks(b, season)
  {
    if a == [] {
      assert a + b == b;
    } else {
      assert (a + b)[0] == a[0];
      assert (a + b)[1..] == a[1..] + b;
      SeasonLinksAppend(a[1..], b, season);
    }
  }

  /** A single href is kept exactly when it starts with the season URL. */
  lemma SeasonLinksSingle(href: string, season: string)
    ensures SeasonLinks([href], season) == if StartsWith(href, season) then [href] else []
  {
    assert [href][1..] == [];
  }

  /** Every matching href is kept as often as it occurs; no other is. */
  lemma {:induction false} SeasonLinksCounts(hrefs: seq<string>, season: string, h: string)
    ensures multiset(SeasonLinks(hrefs, season))[h]
            == if StartsWith(h, season) then multiset(hrefs)[h] else 0
  {
    if hrefs != [] {
      SeasonLinksCounts(hrefs[1..], season, h);
      assert hrefs == [hrefs[0]] + hrefs[1..];
      assert multiset(hrefs) == multiset([hrefs[0]]) + multiset(hrefs[1..]);
    }
  }

  /** Filtering again changes nothing. */
  lemma {:induction false} SeasonLinksIdempotent(hrefs: seq<string>, season: string)
    ensures SeasonLinks(SeasonLinks(hrefs, season), season) == SeasonLinks(hrefs, season)
  {
    if hrefs != [] {
      SeasonLinksIdempotent(hrefs[1..], season);
      var head := if StartsWith(hrefs[0], season) then [hrefs[0]] else [];
      SeasonLinksAppend(head, SeasonLinks(hrefs[1..], season), season);
      SeasonLinksSingle(hrefs[0], season);
    }
  }

  // ---------------------------------------------------------------------
  // Properties of the resolution chain

  /**
   * When every step resolves, the episode is downloaded from the rewritten
   * manifest line into the file named after its 4th-from-last segment, or
   * the unpacking of that URL raises.
   */
  lemma DownloadEpisodeResolved(
    url: string, quality: Option<int>, outputFormat: string,
    get: string -> Fetch,
    findIframe: string -> Option<string>,
    findFileUrl: string -> Option<string>,
    player: string, qualityUrl: string, manifest: string, episodeUrl: string)
    requires get(url).Body? && findIframe(get(url).text) == Some(player) && player != ""
    requires get(player).Body? && findFileUrl(get(player).text) == Some(qualityUrl)
    requires get(qualityUrl) == Body(manifest)
    requires GetEpisodeUrl(manifest, quality) == Ok(episodeUrl)
    ensures var r := DownloadEpisode(url, quality, outputFormat, get, findIframe, findFileUrl);
      && (r.Ok? <==> Count(episodeUrl, '/') >= 4)
      && (r.Ok? ==> r == Ok(Some(Download(episodeUrl,
                                          SegmentFromEnd(episodeUrl, 4) + "." + outputFormat))))
  {
  }

  /**
   * An exception from the manifest selection or the quality rewrite is not a
   * `ClientError`, so it escapes `download_episode` instead of skipping it.
   */
  lemma DownloadEpisodeRaises(
    url: string, quality: Option<int>, outputFormat: string,
    get: string -> Fetch,
    findIframe: string -> Option<string>,
    findFileUrl: string -> Option<string>,
    player: string, qualityUrl: string, manifest: string)
    requires get(url).Body? && findIframe(get(url).text) == Some(player) && player != ""
    requires get(player).Body? && findFileUrl(get(player).text) == Some(qualityUrl)
    requires get(qualityUrl) == Body(manifest)
    requires GetEpisodeUrl(manifest, quality).Err?
    ensures DownloadEpisode(url, quality, outputFormat, get, findIframe, findFileUrl)
            == Err(GetEpisodeUrl(manifest, quality).error)
  {
  }

  /**
   * `suppress(ClientError)` covers the whole chain: a `ClientError` from the
   * player-page fetch or from the manifest fetch also skips the episode.
   */
  lemma DownloadEpisodeSkipsClientError(
    url: string, quality: Option<int>, outputFormat: string,
    get: string -> Fetch,
    findIframe: string -> Option<string>,
    findFileUrl: string -> Option<string>,
    player: string, qualityUrl: string)
    requires get(url).Body? && findIframe(get(url).text) == Some(player) && player != ""
    ensures get(player).ClientError? ==>
      DownloadEpisode(url, quality, outputFormat, get, findIframe, findFileUrl) == Ok(None)
    ensures get(player).Body? && findFileUrl(get(player).text) == Some(qualityUrl)
            && get(qualityUrl).ClientError? ==>
      DownloadEpisode(url, quality, outputFormat, get, findIframe, findFileUrl) == Ok(None)
  {
  }

  /** Without a `file:` script on the player page the lookup raises. */
  lemma DownloadEpisodeNoFileUrl(
    url: string, quality: Option<int>, outputFormat: string,
    get: string -> Fetch,
    findIframe: string -> Option<string>,
    findFileUrl: string -> Option<string>,
    player: string)
    requires get(url).Body? && findIframe(get(url).text) == Some(player) && player != ""
    requires get(player).Body? && findFileUrl(get(player).text) == None
    ensures DownloadEpisode(url, quality, outputFormat, get, findIframe, findFileUrl)
            == Err(NoFileUrl)
  {
  }

  // ---------------------------------------------------------------------
  // URLs given by their segments, and a worked example

  /** The output name of `a/b/.../z` is its 4th-from-last segment plus the extension. */
  lemma OutputNameOfSegments(segs: seq<string>, outputFormat: string)
    requires |segs| >= 5
    requires forall i :: 0 <= i < |segs| ==> '/' !in segs[i]
    ensures OutputName(Join(segs, '/'), outputFormat) == Ok(segs[|segs| - 4] + "." + outputFormat)
  {
    SplitJoin(segs, '/');
  }

  /** Rewriting `a/b/.../y/z` puts `str(quality)` in place of `y`. */
  lemma RewriteQualityOfSegments(segs: seq<string>, quality: Option<int>)
    requires |segs| >= 3 && Truthy(quality)
    requires forall i :: 0 <= i < |segs| ==> '/' !in segs[i]
    ensures var n := |segs|;
      RewriteQuality(Join(segs, '/'), quality)
        == Ok(Join(segs[..n - 2] + [IntToStr(quality.value), segs[n - 1]], '/'))
  {
    var url := Join(segs, '/');
    SplitJoin(segs, '/');
    RewriteQualitySegments(url, quality);
    JoinSplit(RewriteQuality(url, quality).value, '/');
  }

  /** A text that is one non-comment line selects that line. */
  lemma ManifestLineOfLine(line: string)
    requires IsLine(line) && line != [] && !IsComment(line)
    ensures ManifestLine(line) == Ok(line)
  {
    SplitLinesOfLine(line);
  }

  /** One comment line and then the stream line: the stream line is selected. */
  lemma ManifestLineAfterComment(comment: string, line: string)
    requires IsLine(comment) && IsComment(comment)
    requires IsLine(line) && line != [] && !IsComment(line)
    ensures ManifestLine(comment + "\n" + line) == Ok(line)
  {
    ManifestLineSkipsComment(comment, line);
    ManifestLineOfLine(line);
  }

  // The example lemmas take their literal as a parameter fixed by `requires`,
  // which keeps the solver from unfolding `Join` and `Split` on the literal.

  lemma ExampleUrlIsLine(before: seq<string>)
    requires before == ["https:", "", "foo.ashdi.vip", "stream", "xyz", "720", "seg.ts"]
    ensures IsLine(Join(before, '/')) && !IsComment(Join(before, '/'))
  {
    assert forall i :: 0 <= i < |before| ==> IsLine(before[i]);
    JoinIsLine(before, '/');
    JoinStartsWithFirst(before, '/');
    assert Join(before, '/')[0] == before[0][0] == 'h';
  }

  lemma ExampleCommentLine(comment: string)
    requires comment == "#comment"
    ensures IsLine(comment) && IsComment(comment)
  {
  }

  lemma ExampleRewrite(before: seq<string>, after: seq<string>)
    requires before == ["https:", "", "foo.ashdi.vip", "stream", "xyz", "720", "seg.ts"]
    requires after == ["https:", "", "foo.ashdi.vip", "stream", "xyz", "480", "seg.ts"]
    ensures RewriteQuality(Join(before, '/'), Some(480)) == Ok(Join(after, '/'))
  {
    assert forall i :: 0 <= i < |before| ==> '/' !in before[i];
    assert IntToStr(480) == "480";
    assert before[..5] == after[..5];
    assert after == after[..5] + [after[5], after[6]];
    RewriteQualityOfSegments(before, Some(480));
  }

  lemma ExampleOutput(after: seq<string>)
    requires after == ["https:", "", "foo.ashdi.vip", "stream", "xyz", "480", "seg.ts"]
    ensures OutputName(Join(after, '/'), "mp4") == Ok("stream.mp4")
  {
    assert forall i :: 0 <= i < |after| ==> '/' !in after[i];
    OutputNameOfSegments(after, "mp4");
    assert after[|after| - 4] == "stream";
    assert "stream" + "." + "mp4" == "stream.mp4";
  }

  /**
   * The manifest `#comment`, line feed, `https://foo.ashdi.vip/stream/xyz/720/seg.ts`
   * with quality 480 selects the stream URL and puts `480` in place of `720`;
   * that URL is saved as `stream.mp4`, `stream` being its 4th-from-last segment.
   */
  lemma WorkedExample()
    ensures var before := ["https:", "", "foo.ashdi.vip", "stream", "xyz", "720", "seg.ts"];
      var after := ["https:", "", "foo.ashdi.vip", "stream", "xyz", "480", "seg.ts"];
      && GetEpisodeUrl("#comment" + "\n" + Join(before, '/'), Some(480)) == Ok(Join(after, '/'))
      && OutputName(Join(after, '/'), "mp4") == Ok("stream.mp4")
  {
    var before := ["https:", "", "foo.ashdi.vip", "stream", "xyz", "720", "seg.ts"];
    var after := ["https:", "", "foo.ashdi.vip", "stream", "xyz", "480", "seg.ts"];
    ExampleUrlIsLine(before);
    ExampleCommentLine("#comment");
    ManifestLineAfterComment("#comment", Join(before, '/'));
    ExampleRewrite(before, after);
    ExampleOutput(after);
  }
}
