/**
 * The counts `get_stats` scrapes from the text `msgfmt --statistics` writes to
 * its error stream: three independent searches `(\d+)\s+translated`,
 * `(\d+)\s+fuzzy` and `(\d+)\s+untranslated`, each taking its leftmost match
 * and defaulting to 0, and a total that is their sum.
 */
module Stats {
  import opened Wrappers

  /** `\d`, restricted to ASCII. */
  predicate IsDigit(c: char) {
    '0' <= c <= '9'
  }

  /** `\s`, restricted to ASCII: tab to carriage return, 0x1C to 0x1F, and space. */
  predicate IsSpace(c: char) {
    9 <= c as int <= 13 || 28 <= c as int <= 32
  }

  predicate DigitsBetween(text: string, i: nat, j: nat)
    requires i <= j <= |text|
  {
    forall k :: i <= k < j ==> IsDigit(text[k])
  }

  predicate SpacesBetween(text: string, i: nat, j: nat)
    requires i <= j <= |text|
  {
    forall k :: i <= k < j ==> IsSpace(text[k])
  }

  /** `kw` occurs in `text` starting at position `w`. */
  predicate HasAt(text: string, w: nat, kw: string) {
    w + |kw| <= |text| && text[w..w + |kw|] == kw
  }

  /** A keyword the patterns can follow with `\s+`: it does not start with whitespace. */
  predicate ValidKeyword(kw: string) {
    |kw| > 0 && !IsSpace(kw[0])
  }

  /**
   * The pattern `(\d+)\s+kw` matches at `p`, for some way of splitting the text
   * between the two repetitions, exactly as a backtracking matcher may try them.
   */
  ghost predicate RegexMatchAt(text: string, kw: string, p: nat) {
    p <= |text| &&
    exists q: nat, w: nat :: p < q < w <= |text| && DigitsBetween(text, p, q) && SpacesBetween(text, q, w) && HasAt(text, w, kw)
  }

  /** `p` is where `re.search` reports the match: the first position that matches. */
  ghost predicate LeftmostRegexMatch(text: string, kw: string, p: nat) {
    RegexMatchAt(text, kw, p) && forall j :: 0 <= j < p ==> !RegexMatchAt(text, kw, j)
  }

  /** The end of the longest run of digits starting at `p`. */
  function DigitEnd(text: string, p: nat): (q: nat)
    requires p <= |text|
    ensures p <= q <= |text| && DigitsBetween(text, p, q)
    ensures q == |text| || !IsDigit(text[q])
    decreases |text| - p
  {
    if p < |text| && IsDigit(text[p]) then DigitEnd(text, p + 1) else p
  }

  /** The end of the longest run of whitespace starting at `p`. */
  function SpaceEnd(text: string, p: nat): (q: nat)
    requires p <= |text|
    ensures p <= q <= |text| && SpacesBetween(text, p, q)
    ensures q == |text| || !IsSpace(text[q])
    decreases |text| - p
  {
    if p < |text| && IsSpace(text[p]) then SpaceEnd(text, p + 1) else p
  }

  /**
   * The greedy attempt at `p`: the longest digit run, then the longest
   * whitespace run, then the keyword. MatchHereIsRegexMatch shows that this is
   * the pattern's own meaning.
   */
  predicate MatchHere(text: string, kw: string, p: nat)
    requires p <= |text|
  {
    var q := DigitEnd(text, p);
    var w := SpaceEnd(text, q);
    p < q < w && HasAt(text, w, kw)
  }

  /** The first position from `p` on where the greedy attempt succeeds. */
  function FindMatch(text: string, kw: string, p: nat): (r: Option<nat>)
    requires p <= |text|
    ensures r.Some? ==> p <= r.value <= |text| && MatchHere(text, kw, r.value)
    ensures r.Some? ==> forall j :: p <= j < r.value ==> !MatchHere(text, kw, j)
    ensures r.None? ==> forall j :: p <= j <= |text| ==> !MatchHere(text, kw, j)
    decreases |text| - p
  {
    if MatchHere(text, kw, p) then Some(p)
    else if p == |text| then None
    else FindMatch(text, kw, p + 1)
  }

  function DigitValue(c: char): nat {
    if IsDigit(c) then c as int - '0' as int else 0
  }

  /** `int(s)` for a string of decimal digits. */
  function DecimalValue(s: string): nat {
    if s == [] then 0 else 10 * DecimalValue(s[..|s| - 1]) + DigitValue(s[|s| - 1])
  }

  /**
   * `re.search(r"(\d+)\s+" + kw, text)`, with group 1 read by `int`: the
   * number in front of the leftmost match, or None when nothing matches.
   */
  function FirstCount(text: string, kw: string): (r: Option<nat>)
    ensures r.None? <==> forall p :: 0 <= p <= |text| ==> !MatchHere(text, kw, p)
    ensures forall p :: 0 <= p <= |text| && MatchHere(text, kw, p) && (forall j :: 0 <= j < p ==> !MatchHere(text, kw, j)) ==>
      r == Some(DecimalValue(text[p..DigitEnd(text, p)]))
  {
    match FindMatch(text, kw, 0)
    case Some(p) => Some(DecimalValue(text[p..DigitEnd(text, p)]))
    case None => None
  }

  /** The greedy attempt succeeds exactly where the pattern matches. */
  lemma MatchHereIsRegexMatch(text: string, kw: string, p: nat)
    requires p <= |text| && ValidKeyword(kw)
    ensures MatchHere(text, kw, p) <==> RegexMatchAt(text, kw, p)
  {
    var q0 := DigitEnd(text, p);
    var w0 := SpaceEnd(text, q0);
    if MatchHere(text, kw, p) {
      assert p < q0 < w0 <= |text| && DigitsBetween(text, p, q0) && SpacesBetween(text, q0, w0) && HasAt(text, w0, kw);
    }
    if RegexMatchAt(text, kw, p) {
      var q: nat, w: nat :| p < q < w <= |text| && DigitsBetween(text, p, q) && SpacesBetween(text, q, w) && HasAt(text, w, kw);
      // the digit run cannot stop early (text[q] is whitespace) nor run past q
      assert IsSpace(text[q]);
      assert q == q0;
      // the whitespace run cannot stop early (the keyword starts at w) nor run past w
      assert text[w] == kw[0];
      assert w == w0;
    }
  }

  /** The position FindMatch reports from the start is the leftmost match of the pattern. */
  lemma FindMatchIsLeftmost(text: string, kw: string)
    requires ValidKeyword(kw)
    ensures FindMatch(text, kw, 0).Some? ==> LeftmostRegexMatch(text, kw, FindMatch(text, kw, 0).value)
    ensures FindMatch(text, kw, 0).None? ==> forall p: nat :: p <= |text| ==> !RegexMatchAt(text, kw, p)
  {
    var r := FindMatch(text, kw, 0);
    if r.Some? {
      MatchHereIsRegexMatch(text, kw, r.value);
      forall j | 0 <= j < r.value ensures !RegexMatchAt(text, kw, j) {
        MatchHereIsRegexMatch(text, kw, j);
      }
    } else {
      forall p: nat | p <= |text| ensures !RegexMatchAt(text, kw, p) {
        MatchHereIsRegexMatch(text, kw, p);
      }
    }
  }

  /**
   * What `re.search` finds is what FirstCount reports: no count when the
   * pattern matches nowhere, otherwise the number whose digits start the
   * leftmost match.
   */
  lemma FirstCountIsRegexSearch(text: string, kw: string)
    requires ValidKeyword(kw)
    ensures FirstCount(text, kw).None? <==> forall p: nat :: p <= |text| ==> !RegexMatchAt(text, kw, p)
    ensures forall p: nat :: LeftmostRegexMatch(text, kw, p) ==> FirstCount(text, kw) == Some(DecimalValue(text[p..DigitEnd(text, p)]))
  {
    FindMatchIsLeftmost(text, kw);
    var r := FindMatch(text, kw, 0);
    forall p: nat | LeftmostRegexMatch(text, kw, p)
      ensures FirstCount(text, kw) == Some(DecimalValue(text[p..DigitEnd(text, p)]))
    {
      assert r.Some? && LeftmostRegexMatch(text, kw, r.value);
      assert !(r.value < p) && !(p < r.value);
    }
  }

  /**
   * The leftmost match starts a maximal digit run: the character before it, if
   * any, is not a digit, so "x12 translated" counts 12, never 2.
   */
  lemma LeftmostMatchStartsDigitRun(text: string, kw: string, p: nat)
    requires ValidKeyword(kw) && LeftmostRegexMatch(text, kw, p)
    ensures p == 0 || !IsDigit(text[p - 1])
  {
    MatchHereIsRegexMatch(text, kw, p);
    if p > 0 && IsDigit(text[p - 1]) {
      assert DigitEnd(text, p - 1) == DigitEnd(text, p);
      MatchHereIsRegexMatch(text, kw, p - 1);
      assert RegexMatchAt(text, kw, p - 1);
    }
  }

  /** What one search contributes: 0 when the phrase is absent, else the number of its leftmost occurrence. */
  ghost predicate IsSearchCount(text: string, kw: string, n: nat) {
    ((forall p: nat :: p <= |text| ==> !RegexMatchAt(text, kw, p)) && n == 0) ||
    (exists p: nat :: LeftmostRegexMatch(text, kw, p) && n == DecimalValue(text[p..DigitEnd(text, p)]))
  }

  /** One count of `get_stats`: the search's number, or 0 when it finds nothing. */
  function CountOf(text: string, kw: string): nat {
    FirstCount(text, kw).GetOr(0)
  }

  /** A missing phrase counts 0, and is no error; a present one, the number of its leftmost occurrence. */
  lemma CountOfIsSearchCount(text: string, kw: string)
    requires ValidKeyword(kw)
    ensures IsSearchCount(text, kw, CountOf(text, kw))
  {
    FirstCountIsRegexSearch(text, kw);
    FindMatchIsLeftmost(text, kw);
  }

  datatype Counts = Counts(total: nat, translated: nat, fuzzy: nat, untranslated: nat)

  /** The tuple `get_stats` returns for an already decoded statistics text. */
  function ParseStats(text: string): (c: Counts)
    ensures c.total == c.translated + c.fuzzy + c.untranslated
    ensures c.translated <= c.total && c.fuzzy <= c.total && c.untranslated <= c.total
  {
    var t := CountOf(text, "translated");
    var f := CountOf(text, "fuzzy");
    var u := CountOf(text, "untranslated");
    Counts(t + f + u, t, f, u)
  }

  /** Each of the three counts is what its own search reports, 0 when its phrase is missing. */
  lemma ParseStatsCountsAreSearches(text: string)
    ensures var c := ParseStats(text);
      && IsSearchCount(text, "translated", c.translated)
      && IsSearchCount(text, "fuzzy", c.fuzzy)
      && IsSearchCount(text, "untranslated", c.untranslated)
  {
    CountOfIsSearchCount(text, "translated");
    CountOfIsSearchCount(text, "fuzzy");
    CountOfIsSearchCount(text, "untranslated");
  }

  /**
   * `get_stats` step by step: the three counts start at 0 and each is
   * overwritten when its search finds something. `statsOf` stands for running
   * `msgfmt --statistics` on the path and decoding its error stream.
   */
  method GetStats(path: string, statsOf: string -> string) returns (c: Counts)
    ensures c == ParseStats(statsOf(path))
  {
    var text := statsOf(path);
    var nTranslated, nFuzzy, nUntranslated := 0, 0, 0;
    var matchTr := FirstCount(text, "translated");
    var matchFz := FirstCount(text, "fuzzy");
    var matchUn := FirstCount(text, "untranslated");
    if matchTr.Some? {
      nTranslated := matchTr.value;
    }
    if matchFz.Some? {
      nFuzzy := matchFz.value;
    }
    if matchUn.Some? {
      nUntranslated := matchUn.value;
    }
    assert nTranslated == CountOf(text, "translated");
    assert nFuzzy == CountOf(text, "fuzzy");
    assert nUntranslated == CountOf(text, "untranslated");
    c := Counts(nTranslated + nFuzzy + nUntranslated, nTranslated, nFuzzy, nUntranslated);
  }

  lemma DigitEndIs(text: string, p: nat, q: nat)
    requires p <= q <= |text| && DigitsBetween(text, p, q)
    requires q == |text| || !IsDigit(text[q])
    ensures DigitEnd(text, p) == q
    decreases q - p
  {
    if p < q {
      DigitEndIs(text, p + 1, q);
    }
  }

  lemma SpaceEndIs(text: string, p: nat, q: nat)
    requires p <= q <= |text| && SpacesBetween(text, p, q)
    requires q == |text| || !IsSpace(text[q])
    ensures SpaceEnd(text, p) == q
    decreases q - p
  {
    if p < q {
      SpaceEndIs(text, p + 1, q);
    }
  }
}
