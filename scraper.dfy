/**
 * The download step of the scraper (stitchbot.py:63-113): every download
 * button's target page is opened in document order; a page whose download
 * script or PDF address cannot be found is skipped without error; otherwise
 * the PDF is fetched and written into the output directory under the name
 * that get_filename derives from the response headers, replacing any earlier
 * file of that name.
 *
 * The site is a pair of functions (the scripts each page holds, the response
 * each address gives); the output directory is a map from path to bytes; the
 * browser's history is the sequence of addresses it has opened.
 */
module Scraper {
  import opened Wrappers
  import ContentDisposition
  import DownloadScript

  type Bytes = seq<bv8>

  /** What the browser holds after opening an address. */
  datatype Response = Response(headers: map<string, string>, content: Bytes)

  /**
   * The site as the browser session sees it: the texts of the `<script>`
   * elements of the page at an address, in document order, and the response
   * an address gives.
   */
  datatype Site = Site(scripts: string -> seq<Option<string>>, fetch: string -> Response)

  /** One file write: the path and the bytes written there. */
  datatype Save = Save(path: string, content: Bytes)

  /** Why download_pattern stops: a download button without an href (KeyError). */
  datatype Failure = MissingHref(button: nat)

  /** `os.path.join(directory, name)` with POSIX separators. */
  function Join(directory: string, name: string): (path: string)
    ensures |path| >= |name| && path[|path| - |name|..] == name
    ensures name != [] && name[0] == '/' ==> path == name
    ensures (name == [] || name[0] != '/') ==> |directory| <= |path| && path[..|directory|] == directory
    ensures (name == [] || name[0] != '/') && directory != [] ==>
      |name| < |path| <= |directory| + 1 + |name| && path[|path| - |name| - 1] == '/'
    ensures (name == [] || name[0] != '/') ==>
      |path| == |directory| + |name| + if directory == [] || directory[|directory| - 1] == '/' then 0 else 1
  {
    if name != [] && name[0] == '/' then name
    else if directory == [] || directory[|directory| - 1] == '/' then directory + name
    else directory + "/" + name
  }

  /** Where save_pattern writes a response. */
  function SavePath(outputPath: string, response: Response): (path: string)
    ensures var name := ContentDisposition.GetFilename(response.headers);
      |path| >= |name| && path[|path| - |name|..] == name
    ensures var name := ContentDisposition.GetFilename(response.headers);
      (name == [] || name[0] != '/') ==> |outputPath| <= |path| && path[..|outputPath|] == outputPath
    ensures var name := ContentDisposition.GetFilename(response.headers);
      (name == [] || name[0] != '/') && outputPath != [] ==>
        |name| < |path| <= |outputPath| + 1 + |name| && path[|path| - |name| - 1] == '/'
    ensures var name := ContentDisposition.GetFilename(response.headers);
      (name == [] || name[0] != '/') ==>
        |path| == |outputPath| + |name| + if outputPath == [] || outputPath[|outputPath| - 1] == '/' then 0 else 1
    ensures var d := ContentDisposition.DefaultFilename;
      ContentDisposition.HeaderName !in response.headers ==> |path| >= |d| && path[|path| - |d|..] == d
  {
    Join(outputPath, ContentDisposition.GetFilename(response.headers))
  }

  /**
   * The PDF address download_pattern_file finds on the page at `url`: the
   * address in the page's download script, or None when the page has no
   * download script or the script holds no address.
   */
  function PdfUrlFor(site: Site, url: string): (r: Option<string>)
    ensures r.Some? ==> DownloadScript.HasPdfUrlShape(r.value)
  {
    match DownloadScript.FindDownloadScript(site.scripts(url))
    case None => None
    case Some(script) => DownloadScript.ExtractPdfUrl(script)
  }

  /**
   * A target is skipped when none of its page's scripts passes the marker
   * test, or when the first that does holds no address; otherwise its
   * address is the one extracted from that first script, and it has the
   * shape of a PDF address (`http`, something, `.pdf`, on one line).
   */
  lemma PdfUrlForMeaning(site: Site, url: string)
    ensures var scripts := site.scripts(url);
      (forall i :: 0 <= i < |scripts| ==> !DownloadScript.IsDownloadScript(scripts[i])) ==> PdfUrlFor(site, url).None?
    ensures var scripts := site.scripts(url);
      forall i: nat :: DownloadScript.IsFirstDownloadScript(scripts, i) ==>
        PdfUrlFor(site, url) == DownloadScript.ExtractPdfUrl(scripts[i].value)
  {
    var scripts := site.scripts(url);
    var found := DownloadScript.FindDownloadScript(scripts);
    DownloadScript.FindDownloadScriptIsFirst(scripts);
    forall i: nat | DownloadScript.IsFirstDownloadScript(scripts, i)
      ensures PdfUrlFor(site, url) == DownloadScript.ExtractPdfUrl(scripts[i].value)
    {
      var j :| 0 <= j < |scripts| && scripts[j] == found && DownloadScript.IsFirstDownloadScript(scripts, j);
      assert i == j;
    }
  }

  /** The write download_pattern_file makes for the page at `url`, if any. */
  function SaveFor(site: Site, outputPath: string, url: string): (r: Option<Save>)
    ensures r.Some? <==> PdfUrlFor(site, url).Some?
    ensures r.Some? ==> var response := site.fetch(PdfUrlFor(site, url).value);
      r.value.content == response.content && r.value.path == SavePath(outputPath, response)
  {
    match PdfUrlFor(site, url)
    case None => None
    case Some(pdfUrl) =>
      var response := site.fetch(pdfUrl);
      Some(Save(SavePath(outputPath, response), response.content))
  }

  /** The addresses download_pattern_file opens for the page at `url`. */
  function VisitsFor(site: Site, url: string): (r: seq<string>)
    ensures |r| >= 1 && r[0] == url
    ensures |r| == 2 <==> PdfUrlFor(site, url).Some?
    ensures |r| == 2 ==> r[1] == PdfUrlFor(site, url).value
  {
    match PdfUrlFor(site, url)
    case None => [url]
    case Some(pdfUrl) => [url, pdfUrl]
  }

  /** How each target is handled: the write it makes, and the addresses it opens. */
  function TargetSave(site: Site, outputPath: string): string -> Option<Save>
  {
    url => SaveFor(site, outputPath, url)
  }

  function TargetVisits(site: Site): string -> seq<string>
  {
    url => VisitsFor(site, url)
  }

  /** The writes made for a sequence of targets, in order, given each target's write. */
  function Saves(saveFor: string -> Option<Save>, urls: seq<string>): seq<Save>
  {
    if urls == [] then []
    else
      Saves(saveFor, urls[..|urls| - 1])
        + match saveFor(urls[|urls| - 1]) case None => [] case Some(s) => [s]
  }

  /** The addresses opened for a sequence of targets, in order. */
  function Visits(visitsFor: string -> seq<string>, urls: seq<string>): seq<string>
  {
    if urls == [] then [] else Visits(visitsFor, urls[..|urls| - 1]) + visitsFor(urls[|urls| - 1])
  }

  /** A directory after one target's write, if it makes one. */
  function WrittenBy(files: map<string, Bytes>, save: Option<Save>): map<string, Bytes>
  {
    match save
    case None => files
    case Some(s) => files[s.path := s.content]
  }

  /** A directory after a sequence of writes, each replacing what was at its path. */
  function Written(files: map<string, Bytes>, saves: seq<Save>): map<string, Bytes>
  {
    if saves == [] then files
    else
      var last := saves[|saves| - 1];
      Written(files, saves[..|saves| - 1])[last.path := last.content]
  }

  /**
   * `list(map(itemgetter('href'), download_buttons))`: every button's href,
   * or the index of the first button without one.
   */
  function Hrefs(buttons: seq<Option<string>>): (r: Result<seq<string>, nat>)
    ensures r.Ok? ==> |r.value| == |buttons| && forall i :: 0 <= i < |buttons| ==> buttons[i] == Some(r.value[i])
    ensures r.Err? ==> (
      && r.error < |buttons| && buttons[r.error].None?
      && forall i :: 0 <= i < r.error ==> buttons[i].Some?)
    ensures r.Ok? <==> forall i :: 0 <= i < |buttons| ==> buttons[i].Some?
  {
    if buttons == [] then Ok([])
    else if buttons[0].None? then Err(0)
    else
      match Hrefs(buttons[1..])
      case Ok(rest) => Ok([buttons[0].value] + rest)
      case Err(i) => Err(i + 1)
  }

  class StitchBot {
    const outputPath: string
    /** The addresses the browser session has opened, oldest first. */
    var history: seq<string>
    /** The file system under the output directory: path to contents. */
    var files: map<string, Bytes>

    constructor(outputPath: string, files: map<string, Bytes>)
      ensures this.outputPath == outputPath && this.files == files && history == []
    {
      this.outputPath := outputPath;
      this.files := files;
      history := [];
    }

    /**
     * save_pattern: write the response's bytes to the output directory under
     * the header-derived name, replacing any file already there. Creating the
     * directory is not modelled: its failure is swallowed by `save_pattern`.
     */
    method SavePattern(response: Response)
      modifies this`files
      ensures files == old(files)[SavePath(outputPath, response) := response.content]
      ensures files.Keys == old(files).Keys + {SavePath(outputPath, response)}
    {
      var filename := ContentDisposition.GetFilename(response.headers);
      var outputFilename := Join(outputPath, filename);
      files := files[outputFilename := response.content];
    }

    /**
     * download_pattern_file: open the target page; without a download script
     * or an address in it, stop; otherwise open the PDF and save it.
     */
    method DownloadPatternFile(site: Site, url: string)
      modifies this`history, this`files
      ensures history == old(history) + TargetVisits(site)(url)
      ensures files == WrittenBy(old(files), TargetSave(site, outputPath)(url))
    {
      history := history + [url];
      var downloadScript := DownloadScript.FindDownloadScript(site.scripts(url));
      if downloadScript.None? {
        assert PdfUrlFor(site, url).None?;
        return;
      }
      var pdfUrlMatch := DownloadScript.ExtractPdfUrl(downloadScript.value);
      if pdfUrlMatch.None? {
        assert PdfUrlFor(site, url).None?;
        return;
      }
      var pdfUrl := pdfUrlMatch.value;
      assert PdfUrlFor(site, url) == Some(pdfUrl);
      history := history + [pdfUrl];
      assert history == old(history) + [url, pdfUrl];
      var response := site.fetch(pdfUrl);
      SavePattern(response);
      assert SaveFor(site, outputPath, url) == Some(Save(SavePath(outputPath, response), response.content));
    }

    /**
     * download_pattern: collect the hrefs of the download buttons, then
     * download each target in order. A button without an href raises before
     * anything is opened.
     */
    method DownloadPattern(site: Site, buttons: seq<Option<string>>) returns (r: Result<(), Failure>)
      modifies this
      ensures Hrefs(buttons).Err? ==> (
        && r == Err(MissingHref(Hrefs(buttons).error))
        && history == old(history) && files == old(files))
      ensures Hrefs(buttons).Ok? ==> (
        && r == Ok(())
        && history == old(history) + Visits(TargetVisits(site), Hrefs(buttons).value)
        && files == Written(old(files), Saves(TargetSave(site, outputPath), Hrefs(buttons).value)))
    {
      var downloadUrls := Hrefs(buttons);
      if downloadUrls.Err? {
        return Err(MissingHref(downloadUrls.error));
      }
      var urls := downloadUrls.value;
      for i := 0 to |urls|
        invariant history == old(history) + Visits(TargetVisits(site), urls[..i])
        invariant files == Written(old(files), Saves(TargetSave(site, outputPath), urls[..i]))
      {
        DownloadPatternFile(site, urls[i]);
        NextTarget(TargetSave(site, outputPath), TargetVisits(site), old(history), old(files), urls, i);
      }
      assert urls[..|urls|] == urls;
      return Ok(());
    }
  }

  /** One more target: its visits follow the earlier ones, and its write lands on top of theirs. */
  lemma NextTarget(saveFor: string -> Option<Save>, visitsFor: string -> seq<string>,
                   history: seq<string>, files: map<string, Bytes>, urls: seq<string>, i: nat)
    requires i < |urls|
    ensures history + Visits(visitsFor, urls[..i + 1]) == history + Visits(visitsFor, urls[..i]) + visitsFor(urls[i])
    ensures Written(files, Saves(saveFor, urls[..i + 1]))
      == WrittenBy(Written(files, Saves(saveFor, urls[..i])), saveFor(urls[i]))
  {
    var done, url := urls[..i], urls[i];
    assert urls[..i + 1] == done + [url];
    assert (done + [url])[..|done|] == done;
    assert Visits(visitsFor, done + [url]) == Visits(visitsFor, done) + visitsFor(url);
    var before := Saves(saveFor, done);
    match saveFor(url)
    case None =>
      assert Saves(saveFor, done + [url]) == before + [];
      assert before + [] == before;
    case Some(s) =>
      assert Saves(saveFor, done + [url]) == before + [s];
      assert (before + [s])[..|before|] == before;
  }

  // ---------------------------------------------------------------------
  // What a run of download_pattern does to the output directory.
  // ---------------------------------------------------------------------

  /**
   * Each target makes at most one write, a skipped target makes none, and
   * every write comes from one of the targets.
   */
  lemma {:induction false} SavesComeFromTargets(saveFor: string -> Option<Save>, urls: seq<string>)
    ensures |Saves(saveFor, urls)| <= |urls|
    ensures (forall j :: 0 <= j < |urls| ==> saveFor(urls[j]).None?) ==> Saves(saveFor, urls) == []
    ensures forall k :: 0 <= k < |Saves(saveFor, urls)| ==>
      exists j :: 0 <= j < |urls| && saveFor(urls[j]) == Some(Saves(saveFor, urls)[k])
  {
    if urls != [] {
      var init := urls[..|urls| - 1];
      SavesComeFromTargets(saveFor, init);
      var before := Saves(saveFor, init);
      var all := Saves(saveFor, urls);
      assert forall j :: 0 <= j < |init| ==> init[j] == urls[j];
      forall k | 0 <= k < |all|
        ensures exists j :: 0 <= j < |urls| && saveFor(urls[j]) == Some(all[k])
      {
        if k < |before| {
          assert all[k] == before[k];
          var j :| 0 <= j < |init| && saveFor(init[j]) == Some(before[k]);
          assert saveFor(urls[j]) == Some(all[k]);
        } else {
          assert saveFor(urls[|urls| - 1]) == Some(all[k]);
        }
      }
    }
  }

  /** Every target page is opened once, and once more the PDF of every write. */
  lemma {:induction false} VisitsCount(site: Site, outputPath: string, urls: seq<string>)
    ensures |Visits(TargetVisits(site), urls)| == |urls| + |Saves(TargetSave(site, outputPath), urls)|
  {
    if urls != [] {
      VisitsCount(site, outputPath, urls[..|urls| - 1]);
      var url := urls[|urls| - 1];
      assert TargetSave(site, outputPath)(url) == SaveFor(site, outputPath, url);
      assert TargetVisits(site)(url) == VisitsFor(site, url);
    }
  }

  /** The paths present after the writes: those present before and those written. */
  lemma {:induction false} WrittenKeys(files: map<string, Bytes>, saves: seq<Save>)
    ensures Written(files, saves).Keys == files.Keys + set s | s in saves :: s.path
  {
    if saves != [] {
      var init := saves[..|saves| - 1];
      WrittenKeys(files, init);
      assert saves == init + [saves[|saves| - 1]];
      assert (set s | s in saves :: s.path) == (set s | s in init :: s.path) + {saves[|saves| - 1].path};
    }
  }

  /**
   * The last write to a path decides its contents ('wb' replaces); a path
   * that no write touches keeps its old contents.
   */
  lemma {:induction false} WrittenLastWins(files: map<string, Bytes>, saves: seq<Save>)
    ensures forall k :: 0 <= k < |saves| && (forall k' :: k < k' < |saves| ==> saves[k'].path != saves[k].path) ==>
      saves[k].path in Written(files, saves) && Written(files, saves)[saves[k].path] == saves[k].content
    ensures forall path :: path in files && (forall k :: 0 <= k < |saves| ==> saves[k].path != path) ==>
      path in Written(files, saves) && Written(files, saves)[path] == files[path]
  {
    if saves != [] {
      var init := saves[..|saves| - 1];
      WrittenLastWins(files, init);
      assert forall k :: 0 <= k < |init| ==> init[k] == saves[k];
    }
  }

  /** Saving the same response twice leaves the directory as saving it once. */
  lemma SaveIsIdempotent(files: map<string, Bytes>, s: Save)
    ensures Written(files, [s, s]) == Written(files, [s])
  {
    assert [s, s][..1] == [s];
  }
}
