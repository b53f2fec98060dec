/**
 * The filename a download is saved under, taken from the response's
 * `Content-Disposition` header by the search `filename="?([^"]+)"?`
 * (stitchbot.py:115-121).
 *
 * The regular expression is not interpreted by an engine here: the ways it can
 * match at one position are written out as the predicate `Parses`, and the
 * leftmost position and the greedy choice that Python's `re.search` makes are
 * stated as `LeftmostGreedy`. The computing functions (`RunEnd`, `MatchAt`,
 * `FirstMatchFrom`, `GetFilename`) are proved to make exactly that choice.
 */
module ContentDisposition {
  import opened Wrappers

  const HeaderName: string := "Content-Disposition"
  const DefaultFilename: string := "pattern.pdf"
  const Key: string := "filename="
  const Quote: char := '"'

  /** `filename=` occurs in v at position i. */
  predicate KeyAt(v: string, i: nat)
  {
    i + |Key| <= |v| && v[i..i + |Key|] == Key
  }

  /**
   * The regular expression matches v at position i when the optional quote
   * takes q characters (0 or 1) and `[^"]+` takes n characters. The trailing
   * `"?` can always match the empty string, so it adds no condition.
   */
  ghost predicate Parses(v: string, i: nat, q: nat, n: nat)
  {
    var k := i + |Key| + q;
    && q <= 1 && 1 <= n && k + n <= |v|
    && KeyAt(v, i)
    && (q == 1 ==> v[i + |Key|] == Quote)
    && forall t :: k <= t < k + n ==> v[t] != Quote
  }

  /** What group 1 captures for that way of matching. */
  ghost function Group(v: string, i: nat, q: nat, n: nat): string
    requires Parses(v, i, q, n)
  {
    v[i + |Key| + q .. i + |Key| + q + n]
  }

  /**
   * The way `re.search` picks: the leftmost position at which the expression
   * matches at all, and there the greedy choice, which prefers taking the
   * quote and then the longest run of non-quote characters.
   */
  ghost predicate LeftmostGreedy(v: string, i: nat, q: nat, n: nat)
  {
    && Parses(v, i, q, n)
    && (forall i': nat, q': nat, n': nat :: i' < i ==> !Parses(v, i', q', n'))
    && (forall q': nat, n': nat :: Parses(v, i, q', n') ==> q' < q || (q' == q && n' <= n))
  }

  /** End of the longest run of non-quote characters of v that starts at k. */
  function RunEnd(v: string, k: nat): (e: nat)
    requires k <= |v|
    ensures k <= e <= |v|
    ensures forall t :: k <= t < e ==> v[t] != Quote
    ensures e == |v| || v[e] == Quote
    decreases |v| - k
  {
    if k == |v| || v[k] == Quote then k else RunEnd(v, k + 1)
  }

  /** Where the name starts after `filename=` at i: past the quote, if there is one. */
  function NameStart(v: string, i: nat): (k: nat)
    requires KeyAt(v, i)
    ensures i + |Key| <= k <= |v|
  {
    var j := i + |Key|;
    if j < |v| && v[j] == Quote then j + 1 else j
  }

  /** Group 1 of the attempt to match at position i, if that attempt succeeds. */
  function MatchAt(v: string, i: nat): (r: Option<string>)
    ensures r.Some? ==> r.value != [] && Quote !in r.value
  {
    if KeyAt(v, i) then
      var k := NameStart(v, i);
      var e := RunEnd(v, k);
      if k < e then
        assert forall c :: c in v[k..e] ==> c != Quote;
        Some(v[k..e])
      else None
    else None
  }

  /** The first position from `from` on at which the expression matches. */
  function FirstMatchFrom(v: string, from: nat): (r: Option<nat>)
    requires from <= |v|
    ensures r.Some? ==> from <= r.value <= |v| && MatchAt(v, r.value).Some?
    ensures r.Some? ==> forall j :: from <= j < r.value ==> MatchAt(v, j).None?
    ensures r.None? ==> forall j :: from <= j <= |v| ==> MatchAt(v, j).None?
    decreases |v| - from
  {
    if MatchAt(v, from).Some? then Some(from)
    else if from == |v| then None
    else FirstMatchFrom(v, from + 1)
  }

  /** `re.search(r'filename="?([^"]+)"?', v)`, reduced to its group 1. */
  function Search(v: string): (r: Option<string>)
    ensures r.None? <==> forall i :: 0 <= i <= |v| ==> MatchAt(v, i).None?
    ensures r.Some? ==> exists i :: 0 <= i <= |v| && MatchAt(v, i) == r && forall j :: 0 <= j < i ==> MatchAt(v, j).None?
  {
    match FirstMatchFrom(v, 0)
    case Some(i) => MatchAt(v, i)
    case None => None
  }

  /** `headers.get('Content-Disposition', '')`. */
  function HeaderValue(headers: map<string, string>): (v: string)
    ensures HeaderName !in headers ==> v == ""
    ensures HeaderName in headers ==> v == headers[HeaderName]
  {
    if HeaderName in headers then headers[HeaderName] else ""
  }

  /** `StitchBot.get_filename`: the name in the header, or the default. */
  function GetFilename(headers: map<string, string>, defaultFilename: string := DefaultFilename): (r: string)
    ensures r == defaultFilename || (r != [] && Quote !in r)
    ensures HeaderName !in headers ==> r == defaultFilename
  {
    match Search(HeaderValue(headers))
    case Some(name) => name
    case None => defaultFilename
  }

  // ---------------------------------------------------------------------
  // The computed match is the one the regular expression prescribes.
  // ---------------------------------------------------------------------

  /**
   * At one position, MatchAt fails exactly when the expression cannot match
   * there, and otherwise returns the group of the greedy way of matching.
   */
  lemma MatchAtIsGreedyParse(v: string, i: nat)
    ensures MatchAt(v, i).None? <==> forall q: nat, n: nat :: !Parses(v, i, q, n)
    ensures MatchAt(v, i).Some? ==>
      exists q: nat, n: nat :: Parses(v, i, q, n) && MatchAt(v, i).value == Group(v, i, q, n)
        && forall q': nat, n': nat :: Parses(v, i, q', n') ==> q' < q || (q' == q && n' <= n)
  {
    if !KeyAt(v, i) {
      forall q, n ensures !Parses(v, i, q, n) { }
      return;
    }
    var j := i + |Key|;
    var k := NameStart(v, i);
    var e := RunEnd(v, k);
    var quoted := j < |v| && v[j] == Quote;
    assert k == if quoted then j + 1 else j;
    // Every way of matching takes the quote exactly when there is one, and
    // stays within the run [k, e).
    forall q': nat, n': nat | Parses(v, i, q', n')
      ensures q' == (if quoted then 1 else 0) && n' <= e - k
    {
      assert q' == 0 ==> v[j] != Quote;
      assert q' == 1 ==> j < |v| && v[j] == Quote;
    }
    if k < e {
      var q := if quoted then 1 else 0;
      assert Parses(v, i, q, e - k);
      assert MatchAt(v, i).value == Group(v, i, q, e - k);
    }
  }

  /** The chosen position is the leftmost one and the choice there is greedy. */
  lemma SearchIsLeftmostGreedy(v: string)
    ensures Search(v).None? <==> forall i: nat, q: nat, n: nat :: !Parses(v, i, q, n)
    ensures Search(v).Some? ==>
      exists i: nat, q: nat, n: nat :: LeftmostGreedy(v, i, q, n) && Search(v).value == Group(v, i, q, n)
  {
    var first := FirstMatchFrom(v, 0);
    forall i: nat, q: nat, n: nat | first.None? || i < first.value
      ensures !Parses(v, i, q, n)
    {
      MatchAtIsGreedyParse(v, i);
    }
    if first.Some? {
      var i := first.value;
      MatchAtIsGreedyParse(v, i);
      var q: nat, n: nat :| Parses(v, i, q, n) && MatchAt(v, i).value == Group(v, i, q, n)
        && forall q': nat, n': nat :: Parses(v, i, q', n') ==> q' < q || (q' == q && n' <= n);
      assert LeftmostGreedy(v, i, q, n);
    }
  }

  /**
   * get_filename returns the default exactly in the two cases where there is
   * nothing to take: no header, or a value the expression does not match.
   * Otherwise it returns what the leftmost, greedy match captures.
   */
  lemma GetFilenameMeaning(headers: map<string, string>, d: string)
    ensures var v := HeaderValue(headers);
      (forall i: nat, q: nat, n: nat :: !Parses(v, i, q, n)) ==> GetFilename(headers, d) == d
    ensures var v := HeaderValue(headers);
      (exists i: nat, q: nat, n: nat :: Parses(v, i, q, n)) ==>
        exists i: nat, q: nat, n: nat :: LeftmostGreedy(v, i, q, n) && GetFilename(headers, d) == Group(v, i, q, n)
  {
    SearchIsLeftmostGreedy(HeaderValue(headers));
  }

  /**
   * The captured name is the whole run of non-quote characters after
   * `filename=` and the optional opening quote: it ends at the next quote or
   * at the end of the header value, so an unquoted name keeps whatever
   * parameters follow it.
   */
  lemma GreedyGroupIsMaximalRun(v: string, i: nat, q: nat, n: nat)
    requires LeftmostGreedy(v, i, q, n)
    ensures var k := i + |Key| + q;
      Group(v, i, q, n) == v[k..k + n] && (k + n == |v| || v[k + n] == Quote)
    ensures Quote !in Group(v, i, q, n) && Group(v, i, q, n) != []
    ensures q == 1 <==> v[i + |Key|] == Quote
  {
    var k := i + |Key| + q;
    // A longer run, or taking a quote that is there, would also match.
    assert k + n < |v| && v[k + n] != Quote ==> Parses(v, i, q, n + 1);
    assert forall c :: c in Group(v, i, q, n) ==> c != Quote;
  }

  // ---------------------------------------------------------------------
  // Worked header values.
  // ---------------------------------------------------------------------

  /** Reading off a match whose name spans [k, e). */
  lemma MatchSpans(v: string, i: nat, k: nat, e: nat)
    requires KeyAt(v, i) && k == NameStart(v, i)
    requires k < e <= |v| && Quote !in v[k..e] && (e == |v| || v[e] == Quote)
    ensures MatchAt(v, i) == Some(v[k..e])
  {
    forall t | k <= t < e ensures v[t] != Quote {
      assert v[k..e][t - k] == v[t];
    }
  }

  /** Search returns the first successful match attempt. */
  lemma SearchFindsFirstMatch(v: string, i: nat)
    requires i <= |v| && MatchAt(v, i).Some?
    requires forall j :: 0 <= j < i ==> MatchAt(v, j).None?
    ensures Search(v) == MatchAt(v, i)
  {
  }

  /** The first and last letters of `filename=`. */
  lemma KeyEnds(v: string, j: nat)
    requires KeyAt(v, j)
    ensures v[j] == 'f' && v[j + 8] == '='
  {
    assert v[j..j + |Key|][0] == v[j];
    assert v[j..j + |Key|][8] == v[j + 8];
  }

  /** No match attempt succeeds in [lo, hi) when no f occurs there. */
  lemma NoKeyWithoutF(v: string, lo: nat, hi: nat)
    requires lo <= hi <= |v| && 'f' !in v[lo..hi]
    ensures forall j :: lo <= j < hi ==> MatchAt(v, j).None?
  {
    forall j | lo <= j < hi ensures !KeyAt(v, j) {
      assert v[lo..hi][j - lo] == v[j];
      if KeyAt(v, j) {
        KeyEnds(v, j);
      }
    }
  }

  /** Inside an occurrence of `filename=` no other occurrence starts. */
  lemma NoMatchInsideKey(v: string, i: nat)
    requires KeyAt(v, i)
    ensures forall j :: i < j < i + |Key| ==> MatchAt(v, j).None?
  {
    forall j | i < j < i + |Key| ensures !KeyAt(v, j) {
      assert v[j] == v[i..i + |Key|][j - i];
      if KeyAt(v, j) {
        KeyEnds(v, j);
      }
    }
  }

  /** An unquoted name right after `filename=`: the whole rest of the value. */
  lemma UnquotedMatchAt(p: string, name: string)
    requires name != [] && Quote !in name
    ensures MatchAt(p + Key + name, |p|) == Some(name)
  {
    var v := p + Key + name;
    var k := |p| + |Key|;
    assert v[|p|..k] == Key;
    assert v[k..|v|] == name;
    assert v[k] == name[0];
    MatchSpans(v, |p|, k, |v|);
  }

  /** A quoted name right after `filename=`: up to the closing quote. */
  lemma QuotedMatchAt(p: string, name: string, rest: string)
    requires name != [] && Quote !in name
    ensures MatchAt(p + Key + [Quote] + name + [Quote] + rest, |p|) == Some(name)
  {
    var v := p + Key + [Quote] + name + [Quote] + rest;
    var k := |p| + |Key| + 1;
    assert v[|p|..k - 1] == Key;
    assert v[k - 1] == Quote && v[k + |name|] == Quote;
    assert v[k..k + |name|] == name;
    MatchSpans(v, |p|, k, k + |name|);
  }

  /** The first `filename=`, preceded by no f, followed by an unquoted name. */
  lemma FirstUnquotedName(p: string, name: string)
    requires 'f' !in p
    requires name != [] && Quote !in name
    ensures GetFilename(map[HeaderName := p + Key + name]) == name
  {
    var v := p + Key + name;
    assert v[0..|p|] == p;
    NoKeyWithoutF(v, 0, |p|);
    UnquotedMatchAt(p, name);
    SearchFindsFirstMatch(v, |p|);
  }

  /**
   * The first `filename=`, preceded by no f, followed by a quoted name: the
   * name without its quotes, and nothing of what follows.
   */
  lemma FirstQuotedName(p: string, name: string, rest: string)
    requires 'f' !in p
    requires name != [] && Quote !in name
    ensures GetFilename(map[HeaderName := p + Key + [Quote] + name + [Quote] + rest]) == name
  {
    var v := p + Key + [Quote] + name + [Quote] + rest;
    assert v[0..|p|] == p;
    NoKeyWithoutF(v, 0, |p|);
    QuotedMatchAt(p, name, rest);
    SearchFindsFirstMatch(v, |p|);
  }

  /**
   * `filename=""` does not match, since `[^"]+` needs a character: the search
   * moves on to a later `filename=`.
   */
  lemma EmptyQuotedNameSkipped(p: string, m: string, name: string)
    requires 'f' !in p && 'f' !in m
    requires name != [] && Quote !in name
    ensures GetFilename(map[HeaderName := p + Key + [Quote, Quote] + m + Key + name]) == name
  {
    var w := p + Key + [Quote, Quote] + m;
    var v := w + Key + name;
    var i := |p|;
    assert v[0..i] == p;
    NoKeyWithoutF(v, 0, i);
    assert v[i..i + |Key|] == Key;
    assert v[i + |Key|] == Quote && v[i + |Key| + 1] == Quote;
    assert NameStart(v, i) == i + |Key| + 1;
    assert MatchAt(v, i).None?;
    NoMatchInsideKey(v, i);
    assert v[i + |Key|..|w|] == [Quote, Quote] + m;
    NoKeyWithoutF(v, i + |Key|, |w|);
    UnquotedMatchAt(w, name);
    SearchFindsFirstMatch(v, |w|);
  }

  /**
   * `filename*=` (the extended parameter) is not `filename=`: when nothing
   * else in the value spells `filename=`, the default.
   */
  lemma ExtendedParameterIgnored(p: string, s: string)
    requires 'f' !in p
    requires forall j: nat :: !KeyAt(s, j)
    ensures GetFilename(map[HeaderName := p + "filename*" + s]) == DefaultFilename
  {
    var v := p + "filename*" + s;
    var i := |p|;
    var off := i + 9;
    assert v[0..i] == p;
    NoKeyWithoutF(v, 0, i);
    assert v[i + 8] == '*';
    if KeyAt(v, i) {
      KeyEnds(v, i);
    }
    assert v[i + 1..off] == "ilename*";
    NoKeyWithoutF(v, i + 1, off);
    forall j: nat | off <= j ensures !KeyAt(v, j) {
      if j + |Key| <= |v| {
        assert v[j..j + |Key|] == s[j - off..j - off + |Key|];
        assert !KeyAt(s, j - off);
      }
    }
    assert forall j :: 0 <= j <= |v| ==> MatchAt(v, j).None?;
  }

  /** Within its first |s| - 8 characters, s has no f: no `filename=` in s. */
  lemma NoKeyInTail(s: string)
    requires 'f' !in s[..if |s| < 8 then 0 else |s| - 8]
    ensures forall j: nat :: !KeyAt(s, j)
  {
    forall j: nat ensures !KeyAt(s, j) {
      if j + |Key| <= |s| {
        assert s[j] != 'f' by {
          assert s[..|s| - 8][j] == s[j];
        }
        if KeyAt(s, j) {
          KeyEnds(s, j);
        }
      }
    }
  }

  const Attachment: string := "attachment; "

  /** A quoted name is returned without its quotes or the parameters after them. */
  lemma QuotedName()
    ensures GetFilename(map[HeaderName := Attachment + Key + [Quote] + "Pattern X.pdf" + [Quote] + "; size=10"])
      == "Pattern X.pdf"
  {
    FirstQuotedName(Attachment, "Pattern X.pdf", "; size=10");
  }

  /** An unquoted name swallows the parameters that follow it. */
  lemma UnquotedNameKeepsParameters()
    ensures GetFilename(map[HeaderName := Attachment + Key + "x.pdf; size=10"]) == "x.pdf; size=10"
  {
    FirstUnquotedName(Attachment, "x.pdf; size=10");
  }

  /** `filename=""; filename=a.pdf` gives a.pdf. */
  lemma EmptyNameSkipped()
    ensures GetFilename(map[HeaderName := Attachment + Key + [Quote, Quote] + "; " + Key + "a.pdf"]) == "a.pdf"
  {
    EmptyQuotedNameSkipped(Attachment, "; ", "a.pdf");
  }

  /** `filename*=UTF-8''a.pdf`, the extended form alone: the default. */
  lemma ExtendedNameGivesDefault()
    ensures GetFilename(map[HeaderName := Attachment + "filename*" + "=UTF-8''a.pdf"]) == DefaultFilename
  {
    NoKeyInTail("=UTF-8''a.pdf");
    ExtendedParameterIgnored(Attachment, "=UTF-8''a.pdf");
  }
}
