/**
 * Recovering the PDF address from a pattern page (stitchbot.py:79-89).
 *
 * The page's first `<script>` whose text matches `^\s*function startDownload`
 * is the download script; the address is what `(http.+\.pdf)` captures in
 * it. As for the header, the ways each expression can match are written out
 * as predicates, and the computing functions are proved to choose as
 * Python's `re.search` does: the leftmost position, and there the greedy
 * (longest) `.+`.
 */
module DownloadScript {
  import opened Wrappers

  const Marker: string := "function startDownload"
  const Scheme: string := "http"
  const Extension: string := ".pdf"
  const Newline: char := '\n'

  /**
   * Python's `\s` on text: exactly the characters for which `str.isspace()`
   * holds.
   */
  predicate IsSpace(c: char)
  {
    || c == ' ' || c == '\t' || c == '\n' || c == '\r' || c == '\U{0B}' || c == '\U{0C}'
    || ('\U{1C}' <= c <= '\U{1F}') || c == '\U{85}' || c == '\U{A0}' || c == '\U{1680}'
    || ('\U{2000}' <= c <= '\U{200A}') || c == '\U{2028}' || c == '\U{2029}'
    || c == '\U{202F}' || c == '\U{205F}' || c == '\U{3000}'
  }

  // ---------------------------------------------------------------------
  // The marker `^\s*function startDownload`.
  // ---------------------------------------------------------------------

  /** End of the run of whitespace of s that starts at k. */
  function SkipSpaces(s: string, k: nat): (e: nat)
    requires k <= |s|
    ensures k <= e <= |s|
    ensures forall t :: k <= t < e ==> IsSpace(s[t])
    ensures e == |s| || !IsSpace(s[e])
    decreases |s| - k
  {
    if k < |s| && IsSpace(s[k]) then SkipSpaces(s, k + 1) else k
  }

  /** s holds the marker text at position k. */
  predicate MarkerAt(s: string, k: nat)
  {
    k + |Marker| <= |s| && s[k..k + |Marker|] == Marker
  }

  /**
   * The script text matches `^\s*function startDownload`: exactly when some
   * prefix of whitespace is followed by `function startDownload` (the `\s*`
   * gives back nothing useful, as the marker begins with a letter).
   */
  function HasMarker(s: string): (r: bool)
    ensures r <==> exists k: nat :: MarkerAt(s, k) && forall t :: 0 <= t < k ==> IsSpace(s[t])
  {
    MarkerOnlyAfterSpaces(s);
    MarkerAt(s, SkipSpaces(s, 0))
  }

  /** A marker preceded only by whitespace starts where the whitespace ends. */
  lemma MarkerOnlyAfterSpaces(s: string)
    ensures forall k: nat :: MarkerAt(s, k) && (forall t :: 0 <= t < k ==> IsSpace(s[t])) ==> k == SkipSpaces(s, 0)
  {
    var e := SkipSpaces(s, 0);
    forall k: nat | MarkerAt(s, k) && forall t :: 0 <= t < k ==> IsSpace(s[t])
      ensures k == e
    {
      assert s[k..k + |Marker|][0] == s[k];
      assert !IsSpace(s[k]);
    }
  }

  /** A script whose text is known and matches the marker. */
  predicate IsDownloadScript(script: Option<string>)
  {
    script.Some? && HasMarker(script.value)
  }

  /** Script i is the first, in document order, that matches the marker. */
  predicate IsFirstDownloadScript(scripts: seq<Option<string>>, i: nat)
  {
    i < |scripts| && IsDownloadScript(scripts[i]) && forall j :: 0 <= j < i ==> !IsDownloadScript(scripts[j])
  }

  /**
   * `browser.find('script', string=re.compile(r'^\s*function startDownload'))`
   * on a page whose scripts, in document order, have the given texts (None
   * for a script whose `.string` is None, which never matches).
   */
  function FindDownloadScript(scripts: seq<Option<string>>): (r: Option<string>)
    ensures r.Some? ==> r in scripts && IsDownloadScript(r)
  {
    if scripts == [] then None
    else if IsDownloadScript(scripts[0]) then scripts[0]
    else FindDownloadScript(scripts[1..])
  }

  /**
   * The script found is the first in document order that passes the marker
   * test; nothing is found exactly when no script passes it.
   */
  lemma {:induction false} FindDownloadScriptIsFirst(scripts: seq<Option<string>>)
    ensures var r := FindDownloadScript(scripts);
      r.Some? ==> exists i: nat :: i < |scripts| && scripts[i] == r && IsFirstDownloadScript(scripts, i)
    ensures FindDownloadScript(scripts).None? <==> forall i :: 0 <= i < |scripts| ==> !IsDownloadScript(scripts[i])
  {
    if scripts != [] && !IsDownloadScript(scripts[0]) {
      var rest := scripts[1..];
      FindDownloadScriptIsFirst(rest);
      assert forall i :: 1 <= i < |scripts| ==> scripts[i] == rest[i - 1];
      var r := FindDownloadScript(rest);
      if r.Some? {
        var i: nat :| i < |rest| && rest[i] == r && IsFirstDownloadScript(rest, i);
        assert IsFirstDownloadScript(scripts, i + 1);
      }
    } else if scripts != [] {
      assert IsFirstDownloadScript(scripts, 0);
    }
  }

  // ---------------------------------------------------------------------
  // The address `(http.+\.pdf)`.
  // ---------------------------------------------------------------------

  /** s holds `http` at position i. */
  predicate SchemeAt(s: string, i: nat)
  {
    i + |Scheme| <= |s| && s[i..i + |Scheme|] == Scheme
  }

  /** s holds `.pdf` at position p. */
  predicate ExtensionAt(s: string, p: nat)
  {
    p + |Extension| <= |s| && s[p..p + |Extension|] == Extension
  }

  /**
   * `(http.+\.pdf)` matches s from i to p + 4: `http` at i, `.pdf` at p, and
   * between them at least one character, none of them a newline (`.`
   * matches anything but a newline).
   */
  ghost predicate UrlParses(s: string, i: nat, p: nat)
  {
    && SchemeAt(s, i)
    && i + |Scheme| + 1 <= p
    && ExtensionAt(s, p)
    && forall t :: i + |Scheme| <= t < p ==> s[t] != Newline
  }

  /** The choice `re.search` makes: leftmost start, then the longest `.+`. */
  ghost predicate UrlLeftmostGreedy(s: string, i: nat, p: nat)
  {
    && UrlParses(s, i, p)
    && (forall i': nat, p': nat :: i' < i ==> !UrlParses(s, i', p'))
    && (forall p': nat :: UrlParses(s, i, p') ==> p' <= p)
  }

  /** The first newline at or after k, or the end of s. */
  function LineEnd(s: string, k: nat): (e: nat)
    requires k <= |s|
    ensures k <= e <= |s|
    ensures forall t :: k <= t < e ==> s[t] != Newline
    ensures e == |s| || s[e] == Newline
    decreases |s| - k
  {
    if k == |s| || s[k] == Newline then k else LineEnd(s, k + 1)
  }

  /** The last `.pdf` that starts at lo or later and ends by hi. */
  function LastExtension(s: string, lo: nat, hi: nat): (r: Option<nat>)
    requires hi <= |s|
    ensures r.Some? ==> lo <= r.value && r.value + |Extension| <= hi && ExtensionAt(s, r.value)
    ensures r.Some? ==> forall p: nat :: r.value < p && p + |Extension| <= hi ==> !ExtensionAt(s, p)
    ensures r.None? ==> forall p: nat :: lo <= p && p + |Extension| <= hi ==> !ExtensionAt(s, p)
    decreases hi
  {
    if hi < lo + |Extension| then None
    else if ExtensionAt(s, hi - |Extension|) then Some(hi - |Extension|)
    else LastExtension(s, lo, hi - 1)
  }

  /** `http`, at least one character, `.pdf`, and no newline. */
  predicate HasPdfUrlShape(u: string)
  {
    && |u| >= |Scheme| + 1 + |Extension|
    && u[..|Scheme|] == Scheme
    && u[|u| - |Extension|..] == Extension
    && Newline !in u
  }

  /** What the attempt to match `(http.+\.pdf)` at position i captures. */
  function UrlAt(s: string, i: nat): (r: Option<string>)
    ensures r.Some? ==> i + |r.value| <= |s| && r.value == s[i..i + |r.value|]
    ensures r.Some? ==> HasPdfUrlShape(r.value)
  {
    if SchemeAt(s, i) then
      match LastExtension(s, i + |Scheme| + 1, LineEnd(s, i + |Scheme|))
      case Some(p) =>
        SpanShape(s, i, p);
        Some(s[i..p + |Extension|])
      case None => None
    else None
  }

  /** The first position from `from` on at which `(http.+\.pdf)` matches. */
  function FirstUrlFrom(s: string, from: nat): (r: Option<nat>)
    requires from <= |s|
    ensures r.Some? ==> from <= r.value <= |s| && UrlAt(s, r.value).Some?
    ensures r.Some? ==> forall j :: from <= j < r.value ==> UrlAt(s, j).None?
    ensures r.None? ==> forall j :: from <= j <= |s| ==> UrlAt(s, j).None?
    decreases |s| - from
  {
    if UrlAt(s, from).Some? then Some(from)
    else if from == |s| then None
    else FirstUrlFrom(s, from + 1)
  }

  /** `re.search(r'(http.+\.pdf)', script).group(1)`, or None without a match. */
  function ExtractPdfUrl(script: string): (r: Option<string>)
    ensures r.None? <==> forall i :: 0 <= i <= |script| ==> UrlAt(script, i).None?
    ensures r.Some? ==> HasPdfUrlShape(r.value)
    ensures r.Some? ==> exists i :: 0 <= i <= |script| && UrlAt(script, i) == r && forall j :: 0 <= j < i ==> UrlAt(script, j).None?
  {
    match FirstUrlFrom(script, 0)
    case Some(i) => UrlAt(script, i)
    case None => None
  }

  // ---------------------------------------------------------------------
  // The computed address is the one the expression prescribes.
  // ---------------------------------------------------------------------

  /** A `.pdf` that ends within the line: every character before it is on the line. */
  lemma ExtensionWithinLine(s: string, i: nat, p: nat)
    requires SchemeAt(s, i) && ExtensionAt(s, p) && i + |Scheme| <= p
    ensures (forall t :: i + |Scheme| <= t < p ==> s[t] != Newline)
      <==> p + |Extension| <= LineEnd(s, i + |Scheme|)
  {
    ExtensionOnOneLine(s, p);
  }

  /** `http` holds no newline. */
  lemma SchemeOnOneLine(s: string, i: nat)
    requires SchemeAt(s, i)
    ensures forall t :: i <= t < i + |Scheme| ==> s[t] != Newline
  {
    forall t | i <= t < i + |Scheme| ensures s[t] != Newline {
      assert s[i..i + |Scheme|][t - i] == s[t];
    }
  }

  /** `.pdf` holds no newline. */
  lemma ExtensionOnOneLine(s: string, p: nat)
    requires ExtensionAt(s, p)
    ensures forall t :: p <= t < p + |Extension| ==> s[t] != Newline
  {
    forall t | p <= t < p + |Extension| ensures s[t] != Newline {
      assert s[p..p + |Extension|][t - p] == s[t];
    }
  }

  /** At one position, UrlAt captures the greedy match, or fails when there is none. */
  lemma UrlAtIsGreedyParse(s: string, i: nat)
    ensures UrlAt(s, i).None? <==> forall p: nat :: !UrlParses(s, i, p)
    ensures UrlAt(s, i).Some? ==>
      exists p: nat :: UrlParses(s, i, p) && UrlAt(s, i).value == s[i..p + |Extension|]
        && forall p': nat :: UrlParses(s, i, p') ==> p' <= p
  {
    if !SchemeAt(s, i) {
      return;
    }
    var e := LineEnd(s, i + |Scheme|);
    var last := LastExtension(s, i + |Scheme| + 1, e);
    forall p': nat | UrlParses(s, i, p')
      ensures last.Some? && p' <= last.value
    {
      ExtensionWithinLine(s, i, p');
    }
    if last.Some? {
      ExtensionWithinLine(s, i, last.value);
      assert UrlParses(s, i, last.value);
    }
  }

  /** ExtractPdfUrl makes the leftmost, greedy choice, and fails only without any match. */
  lemma ExtractPdfUrlIsLeftmostGreedy(s: string)
    ensures ExtractPdfUrl(s).None? <==> forall i: nat, p: nat :: !UrlParses(s, i, p)
    ensures ExtractPdfUrl(s).Some? ==>
      exists i: nat, p: nat :: UrlLeftmostGreedy(s, i, p) && ExtractPdfUrl(s).value == s[i..p + |Extension|]
  {
    var first := FirstUrlFrom(s, 0);
    forall i: nat, p: nat | first.None? || i < first.value
      ensures !UrlParses(s, i, p)
    {
      UrlAtIsGreedyParse(s, i);
    }
    if first.Some? {
      var i := first.value;
      UrlAtIsGreedyParse(s, i);
      var p: nat :| UrlParses(s, i, p) && UrlAt(s, i).value == s[i..p + |Extension|]
        && forall p': nat :: UrlParses(s, i, p') ==> p' <= p;
      assert UrlLeftmostGreedy(s, i, p);
    }
  }

  /**
   * The text from `http` at i to a `.pdf` at p on the same line starts with
   * `http`, ends with `.pdf`, has at least one character between the two,
   * and lies on one line.
   */
  lemma SpanShape(s: string, i: nat, p: nat)
    requires SchemeAt(s, i) && i + |Scheme| + 1 <= p && ExtensionAt(s, p)
    requires p + |Extension| <= LineEnd(s, i + |Scheme|)
    ensures HasPdfUrlShape(s[i..p + |Extension|])
  {
    var u := s[i..p + |Extension|];
    assert UrlParses(s, i, p);
    assert u[..|Scheme|] == s[i..i + |Scheme|];
    assert u[|u| - |Extension|..] == s[p..p + |Extension|];
    MatchOnOneLine(s, i, p);
    forall t | 0 <= t < |u| ensures u[t] != Newline {
      assert u[t] == s[i + t];
    }
  }

  /** A match holds no newline, from `http` to the end of `.pdf`. */
  lemma MatchOnOneLine(s: string, i: nat, p: nat)
    requires UrlParses(s, i, p)
    ensures forall t :: i <= t < p + |Extension| ==> s[t] != Newline
  {
    SchemeOnOneLine(s, i);
    ExtensionOnOneLine(s, p);
    forall t | i <= t < p + |Extension| ensures s[t] != Newline {
      assert t < i + |Scheme| || i + |Scheme| <= t < p || p <= t;
    }
  }

  /** The extracted address runs to the last `.pdf` on the line where it starts. */
  lemma ExtractedUrlReachesLastExtension(s: string)
    requires ExtractPdfUrl(s).Some?
    ensures exists i: nat, p: nat :: (
      && UrlLeftmostGreedy(s, i, p)
      && ExtractPdfUrl(s).value == s[i..p + |Extension|]
      && forall p': nat :: p < p' && p' + |Extension| <= LineEnd(s, i + |Scheme|) ==> !ExtensionAt(s, p'))
  {
    ExtractPdfUrlIsLeftmostGreedy(s);
    var i: nat, p: nat :| UrlLeftmostGreedy(s, i, p) && ExtractPdfUrl(s).value == s[i..p + |Extension|];
    forall p': nat | p < p' && p' + |Extension| <= LineEnd(s, i + |Scheme|)
      ensures !ExtensionAt(s, p')
    {
      if ExtensionAt(s, p') {
        ExtensionWithinLine(s, i, p');
        assert UrlParses(s, i, p');
      }
    }
  }

  // ---------------------------------------------------------------------
  // Worked script texts.
  // ---------------------------------------------------------------------

  /** `http` and `.pdf` begin with the letters h and the dot. */
  lemma FirstLetters(s: string, j: nat)
    ensures SchemeAt(s, j) ==> s[j] == 'h'
    ensures ExtensionAt(s, j) ==> s[j] == '.' && s[j + 3] == 'f'
  {
    if SchemeAt(s, j) {
      assert s[j..j + |Scheme|][0] == s[j];
    }
    if ExtensionAt(s, j) {
      assert s[j..j + |Extension|][0] == s[j];
      assert s[j..j + |Extension|][3] == s[j + 3];
    }
  }

  /** No match attempt succeeds in [lo, hi) when no h occurs there. */
  lemma NoUrlWithoutH(s: string, lo: nat, hi: nat)
    requires lo <= hi <= |s| && 'h' !in s[lo..hi]
    ensures forall j :: lo <= j < hi ==> UrlAt(s, j).None?
  {
    forall j | lo <= j < hi ensures !SchemeAt(s, j) {
      assert s[lo..hi][j - lo] == s[j];
      FirstLetters(s, j);
    }
  }

  /** Any run of whitespace may precede the marker. */
  lemma MarkerAfterWhitespace(w: string, rest: string)
    requires forall t :: 0 <= t < |w| ==> IsSpace(w[t])
    ensures HasMarker(w + Marker + rest)
  {
    var s := w + Marker + rest;
    assert s[|w|..|w| + |Marker|] == Marker;
    assert MarkerAt(s, |w|);
    assert forall t :: 0 <= t < |w| ==> IsSpace(s[t]) by {
      assert forall t :: 0 <= t < |w| ==> s[t] == w[t];
    }
  }

  /** Leading newlines and blanks before the marker are allowed. */
  lemma IndentedMarker()
    ensures HasMarker("\n  " + Marker + "() {}")
  {
    MarkerAfterWhitespace("\n  ", "() {}");
  }

  /** The marker must open the script: a statement before it fails the test. */
  lemma MarkerNotAtStart()
    ensures !HasMarker("var a; function startDownload() {}")
  {
    var s := "var a; function startDownload() {}";
    assert SkipSpaces(s, 0) == 0;
    assert s[0..|Marker|][0] == 'v';
  }

  /** ExtractPdfUrl returns the first successful match attempt. */
  lemma ExtractFindsFirstMatch(s: string, i: nat)
    requires i <= |s| && UrlAt(s, i).Some?
    requires forall j :: 0 <= j < i ==> UrlAt(s, j).None?
    ensures ExtractPdfUrl(s) == UrlAt(s, i)
  {
  }

  /** `http.pdf` leaves nothing for `.+`: no address. */
  lemma NothingBetweenSchemeAndExtension()
    ensures ExtractPdfUrl("http.pdf").None?
  {
    var s := "http.pdf";
    assert UrlAt(s, 0).None? by {
      assert LineEnd(s, 4) <= 8;
    }
    NoUrlWithoutH(s, 1, 8);
    assert UrlAt(s, 8).None?;
  }

  const StatementUrl: string := "http://x.org/a.pdf"
  const Statement: string := "var u = '" + StatementUrl + "';"

  /** In Statement, the last `.pdf` on the line of the `http` at 9 is at 23. */
  lemma StatementExtension()
    ensures SchemeAt(Statement, 9)
    ensures LastExtension(Statement, 14, LineEnd(Statement, 13)) == Some(23)
  {
    var s := Statement;
    assert s[9] == 'h' && s[10] == 't' && s[11] == 't' && s[12] == 'p';
    assert LineEnd(s, 13) == 29 by {
      assert Newline !in s;
    }
    assert ExtensionAt(s, 23) by {
      assert s[23] == '.' && s[24] == 'p' && s[25] == 'd' && s[26] == 'f';
    }
    FirstLetters(s, 24);
    FirstLetters(s, 25);
  }

  /** An address quoted inside a statement is taken without the quotes. */
  lemma AddressInStatement()
    ensures ExtractPdfUrl(Statement) == Some(StatementUrl)
  {
    var url := StatementUrl;
    var s := Statement;
    assert UrlAt(s, 9) == Some(url) by {
      StatementExtension();
      assert s[9..27] == url;
    }
    NoUrlWithoutH(s, 0, 9);
    ExtractFindsFirstMatch(s, 9);
  }
}
