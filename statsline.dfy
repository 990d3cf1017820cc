/**
 * What `get_stats` makes of a whole statistics line as `msgfmt --statistics`
 * writes it: a run of phrases such as "12 translated messages, ", each a
 * number, whitespace and digit-free words. The count for a keyword is the
 * number of the first phrase whose words begin with it.
 */
module StatsLine {
  import opened Wrappers
  import opened Stats

  /** One phrase of the line: a number, whitespace, and the words after it. */
  datatype Phrase = Phrase(digits: string, spaces: string, words: string)

  predicate WellShaped(ph: Phrase) {
    && |ph.digits| > 0 && DigitsBetween(ph.digits, 0, |ph.digits|)
    && |ph.spaces| > 0 && SpacesBetween(ph.spaces, 0, |ph.spaces|)
    && |ph.words| > 0 && !IsSpace(ph.words[0])
    && forall k :: 0 <= k < |ph.words| ==> !IsDigit(ph.words[k])
  }

  function Render(ph: Phrase): string {
    ph.digits + ph.spaces + ph.words
  }

  function Text(ps: seq<Phrase>): string {
    if ps == [] then "" else Render(ps[0]) + Text(ps[1..])
  }

  predicate StartsWith(s: string, kw: string) {
    |kw| <= |s| && s[..|kw|] == kw
  }

  /** The phrase's words either begin with `kw` or differ from it in their first character. */
  predicate Decides(ph: Phrase, kw: string)
    requires |kw| > 0 && |ph.words| > 0
  {
    StartsWith(ph.words, kw) || ph.words[0] != kw[0]
  }

  /** The number of the first phrase whose words begin with `kw`, 0 when there is none. */
  function PhraseCount(ps: seq<Phrase>, kw: string): nat {
    if ps == [] then 0
    else if StartsWith(ps[0].words, kw) then DecimalValue(ps[0].digits)
    else PhraseCount(ps[1..], kw)
  }

  /** What a search result amounts to: the number at the match, 0 for no match. */
  function ValueAt(text: string, r: Option<nat>): nat
    requires r.Some? ==> r.value <= |text|
  {
    match r
    case None => 0
    case Some(p) => DecimalValue(text[p..DigitEnd(text, p)])
  }

  /** Positions where the greedy attempt fails can be skipped. */
  lemma FindMatchSkip(text: string, kw: string, a: nat, b: nat)
    requires a <= b <= |text|
    requires forall p :: a <= p < b ==> !MatchHere(text, kw, p)
    ensures FindMatch(text, kw, a) == FindMatch(text, kw, b)
  {
    var ra, rb := FindMatch(text, kw, a), FindMatch(text, kw, b);
    if ra.Some? && rb.Some? {
      assert !(ra.value < rb.value) && !(rb.value < ra.value);
    }
  }

  /** The runs inside one phrase of a longer text. */
  lemma PhraseRuns(pre: string, ph: Phrase, post: string)
    requires WellShaped(ph)
    ensures var text := pre + Render(ph) + post;
      var o, n := |pre|, |pre| + |ph.digits|;
      && text[o..n] == ph.digits
      && (forall p :: o <= p <= n ==> DigitEnd(text, p) == n)
      && SpaceEnd(text, n) == n + |ph.spaces|
      && (forall p :: n <= p < n + |ph.spaces| + |ph.words| ==> !IsDigit(text[p]))
  {
    var text := pre + Render(ph) + post;
    var o := |pre|;
    var n := o + |ph.digits|;
    var m := n + |ph.spaces|;
    var e := m + |ph.words|;
    assert text[o..e] == Render(ph);
    assert text[n] == ph.spaces[0];
    assert text[m] == ph.words[0];
    assert DigitsBetween(text, o, n) by {
      forall k | o <= k < n ensures IsDigit(text[k]) { assert text[k] == ph.digits[k - o]; }
    }
    assert SpacesBetween(text, n, m) by {
      forall k | n <= k < m ensures IsSpace(text[k]) { assert text[k] == ph.spaces[k - n]; }
    }
    SpaceEndIs(text, n, m);
    forall p | o <= p <= n ensures DigitEnd(text, p) == n {
      DigitEndIs(text, p, n);
    }
    forall p | n <= p < e ensures !IsDigit(text[p]) {
      if p < m { assert text[p] == ph.spaces[p - n]; } else { assert text[p] == ph.words[p - m]; }
    }
  }

  /** The keyword stands after the phrase's whitespace exactly when the words begin with it. */
  lemma PhraseKeyword(pre: string, ph: Phrase, post: string, kw: string)
    requires WellShaped(ph) && ValidKeyword(kw) && Decides(ph, kw)
    ensures var text := pre + Render(ph) + post;
      HasAt(text, |pre| + |ph.digits| + |ph.spaces|, kw) <==> StartsWith(ph.words, kw)
  {
    var text := pre + Render(ph) + post;
    var m := |pre| + |ph.digits| + |ph.spaces|;
    assert text[m..] == ph.words + post;
    if StartsWith(ph.words, kw) {
      assert text[m..m + |kw|] == ph.words[..|kw|];
    } else {
      assert text[m] == ph.words[0];
    }
  }

  /** Inside one phrase, the greedy attempt succeeds exactly on its digits, and only when its words begin with `kw`. */
  lemma PhraseAttempts(pre: string, ph: Phrase, post: string, kw: string)
    requires WellShaped(ph) && ValidKeyword(kw) && Decides(ph, kw)
    ensures var text := pre + Render(ph) + post;
      var o := |pre|;
      && DigitEnd(text, o) == o + |ph.digits|
      && text[o..o + |ph.digits|] == ph.digits
      && (MatchHere(text, kw, o) <==> StartsWith(ph.words, kw))
      && (!StartsWith(ph.words, kw) ==> forall p :: o <= p < o + |Render(ph)| ==> !MatchHere(text, kw, p))
  {
    var text := pre + Render(ph) + post;
    var n := |pre| + |ph.digits|;
    PhraseRuns(pre, ph, post);
    PhraseKeyword(pre, ph, post, kw);
    if !StartsWith(ph.words, kw) {
      forall p | |pre| <= p < |pre| + |Render(ph)| ensures !MatchHere(text, kw, p) {
        if p >= n {
          assert DigitEnd(text, p) == p;
        }
      }
    }
  }

  /** The search from the start of a run of phrases lands on the first phrase that begins with `kw`. */
  lemma {:induction false} SearchFrom(pre: string, ps: seq<Phrase>, kw: string)
    requires ValidKeyword(kw)
    requires forall i :: 0 <= i < |ps| ==> WellShaped(ps[i]) && Decides(ps[i], kw)
    ensures ValueAt(pre + Text(ps), FindMatch(pre + Text(ps), kw, |pre|)) == PhraseCount(ps, kw)
    decreases |ps|
  {
    var text := pre + Text(ps);
    if ps == [] {
      assert text == pre;
    } else {
      var ph := ps[0];
      var rest := Text(ps[1..]);
      assert text == pre + Render(ph) + rest;
      PhraseAttempts(pre, ph, rest, kw);
      if !StartsWith(ph.words, kw) {
        var pre' := pre + Render(ph);
        assert text == pre' + rest;
        FindMatchSkip(text, kw, |pre|, |pre'|);
        SearchFrom(pre', ps[1..], kw);
      }
    }
  }

  /** Each count `get_stats` reads off a run of phrases is the number of the first phrase that carries its keyword. */
  lemma CountOfPhrases(ps: seq<Phrase>, kw: string)
    requires ValidKeyword(kw)
    requires forall i :: 0 <= i < |ps| ==> WellShaped(ps[i]) && Decides(ps[i], kw)
    ensures CountOf(Text(ps), kw) == PhraseCount(ps, kw)
  {
    SearchFrom([], ps, kw);
    assert [] + Text(ps) == Text(ps);
  }

  /** The count is the number of the first phrase whose words begin with the keyword. */
  lemma {:induction false} PhraseCountIsFirst(ps: seq<Phrase>, kw: string, i: nat)
    requires i < |ps| && StartsWith(ps[i].words, kw)
    requires forall j :: 0 <= j < i ==> !StartsWith(ps[j].words, kw)
    ensures PhraseCount(ps, kw) == DecimalValue(ps[i].digits)
  {
    if i > 0 {
      PhraseCountIsFirst(ps[1..], kw, i - 1);
    }
  }

  /** No phrase begins with the keyword: the count is 0. */
  lemma {:induction false} PhraseCountAbsent(ps: seq<Phrase>, kw: string)
    requires forall j :: 0 <= j < |ps| ==> !StartsWith(ps[j].words, kw)
    ensures PhraseCount(ps, kw) == 0
  {
    if ps != [] {
      PhraseCountAbsent(ps[1..], kw);
    }
  }

  lemma SinglePhrase(ph: Phrase)
    ensures Text([ph]) == ph.digits + ph.spaces + ph.words
  {
    assert [ph][1..] == [];
  }

  /** A single phrase whose words do not start like `kw` gives `kw` no count. */
  lemma OtherKeywordCountsZero(digits: string, spaces: string, tail: string, kw: string)
    requires WellShaped(Phrase(digits, spaces, tail))
    requires ValidKeyword(kw) && kw[0] != tail[0]
    ensures CountOf(digits + spaces + tail, kw) == 0
  {
    var ph := Phrase(digits, spaces, tail);
    SinglePhrase(ph);
    OtherLetter(ph, kw);
    CountOfPhrases([ph], kw);
    PhraseCountAbsent([ph], kw);
  }

  /** A single phrase gives its own keyword the number written in front of it. */
  lemma OwnKeywordCountsNumber(digits: string, spaces: string, kw: string)
    requires WellShaped(Phrase(digits, spaces, kw)) && ValidKeyword(kw)
    ensures CountOf(digits + spaces + kw, kw) == DecimalValue(digits)
  {
    var ph := Phrase(digits, spaces, kw);
    SinglePhrase(ph);
    assert kw[..|kw|] == kw;
    CountOfPhrases([ph], kw);
    PhraseCountIsFirst([ph], kw, 0);
  }

  /**
   * A phrase such as "5 untranslated" feeds only the untranslated count: the
   * translated pattern needs whitespace right before "translated", and here
   * "un" stands there.
   */
  lemma UntranslatedIsNotTranslated(digits: string, spaces: string)
    requires |digits| > 0 && DigitsBetween(digits, 0, |digits|)
    requires |spaces| > 0 && SpacesBetween(spaces, 0, |spaces|)
    ensures var n := DecimalValue(digits);
      ParseStats(digits + spaces + "untranslated") == Counts(n, 0, 0, n)
  {
    var tail := "untranslated";
    assert WellShaped(Phrase(digits, spaces, tail));
    OtherKeywordCountsZero(digits, spaces, tail, "translated");
    OtherKeywordCountsZero(digits, spaces, tail, "fuzzy");
    OwnKeywordCountsNumber(digits, spaces, tail);
  }

  /** The phrases msgfmt writes: a number, one space, then words that begin with the keyword. */
  predicate MsgfmtPhrase(ph: Phrase, kw: string) {
    && |ph.digits| > 0 && DigitsBetween(ph.digits, 0, |ph.digits|)
    && ph.spaces == " "
    && StartsWith(ph.words, kw)
    && forall k :: 0 <= k < |ph.words| ==> !IsDigit(ph.words[k])
  }

  /** A msgfmt phrase of keyword `kw` is well shaped and begins with the first letter of `kw`. */
  lemma MsgfmtPhraseShape(ph: Phrase, kw: string, c: char)
    requires ValidKeyword(kw) && MsgfmtPhrase(ph, kw) && kw[0] == c
    ensures WellShaped(ph) && ph.words[0] == c
  {
    assert ph.words[0] == ph.words[..|kw|][0];
    assert IsSpace(' ');
  }

  /** Words that begin with a different letter neither begin with `kw` nor leave the search undecided. */
  lemma OtherLetter(ph: Phrase, kw: string)
    requires |kw| > 0 && |ph.words| > 0 && ph.words[0] != kw[0]
    ensures !StartsWith(ph.words, kw) && Decides(ph, kw)
  {
    if |kw| <= |ph.words| {
      assert ph.words[..|kw|][0] == ph.words[0];
    }
  }

  /** The three phrases of a full line, each well shaped and read by its own keyword only. */
  predicate FullLine(tr: Phrase, fz: Phrase, un: Phrase) {
    MsgfmtPhrase(tr, "translated") && MsgfmtPhrase(fz, "fuzzy") && MsgfmtPhrase(un, "untranslated")
  }

  lemma FullLineShape(tr: Phrase, fz: Phrase, un: Phrase)
    requires FullLine(tr, fz, un)
    ensures WellShaped(tr) && WellShaped(fz) && WellShaped(un)
    ensures tr.words[0] == 't' && fz.words[0] == 'f' && un.words[0] == 'u'
  {
    MsgfmtPhraseShape(tr, "translated", 't');
    MsgfmtPhraseShape(fz, "fuzzy", 'f');
    MsgfmtPhraseShape(un, "untranslated", 'u');
  }

  lemma FullLineTranslated(tr: Phrase, fz: Phrase, un: Phrase)
    requires FullLine(tr, fz, un)
    ensures CountOf(Text([tr, fz, un]), "translated") == DecimalValue(tr.digits)
  {
    FullLineShape(tr, fz, un);
    OtherLetter(fz, "translated");
    OtherLetter(un, "translated");
    CountOfPhrases([tr, fz, un], "translated");
    PhraseCountIsFirst([tr, fz, un], "translated", 0);
  }

  lemma FullLineFuzzy(tr: Phrase, fz: Phrase, un: Phrase)
    requires FullLine(tr, fz, un)
    ensures CountOf(Text([tr, fz, un]), "fuzzy") == DecimalValue(fz.digits)
  {
    FullLineShape(tr, fz, un);
    OtherLetter(tr, "fuzzy");
    OtherLetter(un, "fuzzy");
    CountOfPhrases([tr, fz, un], "fuzzy");
    PhraseCountIsFirst([tr, fz, un], "fuzzy", 1);
  }

  lemma FullLineUntranslated(tr: Phrase, fz: Phrase, un: Phrase)
    requires FullLine(tr, fz, un)
    ensures CountOf(Text([tr, fz, un]), "untranslated") == DecimalValue(un.digits)
  {
    FullLineShape(tr, fz, un);
    OtherLetter(tr, "untranslated");
    OtherLetter(fz, "untranslated");
    CountOfPhrases([tr, fz, un], "untranslated");
    PhraseCountIsFirst([tr, fz, un], "untranslated", 2);
  }

  /**
   * The full line, for instance "12 translated messages, 3 fuzzy
   * translations, 1 untranslated message.": every count is its own phrase's
   * number and the total is their sum.
   */
  lemma FullLineParses(tr: Phrase, fz: Phrase, un: Phrase)
    requires MsgfmtPhrase(tr, "translated") && MsgfmtPhrase(fz, "fuzzy") && MsgfmtPhrase(un, "untranslated")
    ensures var t, f, u := DecimalValue(tr.digits), DecimalValue(fz.digits), DecimalValue(un.digits);
      ParseStats(Text([tr, fz, un])) == Counts(t + f + u, t, f, u)
  {
    FullLineTranslated(tr, fz, un);
    FullLineFuzzy(tr, fz, un);
    FullLineUntranslated(tr, fz, un);
  }

  lemma ShortLineShape(tr: Phrase, un: Phrase)
    requires MsgfmtPhrase(tr, "translated") && MsgfmtPhrase(un, "untranslated")
    ensures WellShaped(tr) && WellShaped(un) && tr.words[0] == 't' && un.words[0] == 'u'
  {
    MsgfmtPhraseShape(tr, "translated", 't');
    MsgfmtPhraseShape(un, "untranslated", 'u');
  }

  lemma ShortLineTranslated(tr: Phrase, un: Phrase)
    requires MsgfmtPhrase(tr, "translated") && MsgfmtPhrase(un, "untranslated")
    ensures CountOf(Text([tr, un]), "translated") == DecimalValue(tr.digits)
  {
    ShortLineShape(tr, un);
    OtherLetter(un, "translated");
    CountOfPhrases([tr, un], "translated");
    PhraseCountIsFirst([tr, un], "translated", 0);
  }

  lemma ShortLineFuzzy(tr: Phrase, un: Phrase)
    requires MsgfmtPhrase(tr, "translated") && MsgfmtPhrase(un, "untranslated")
    ensures CountOf(Text([tr, un]), "fuzzy") == 0
  {
    ShortLineShape(tr, un);
    OtherLetter(tr, "fuzzy");
    OtherLetter(un, "fuzzy");
    CountOfPhrases([tr, un], "fuzzy");
    PhraseCountAbsent([tr, un], "fuzzy");
  }

  lemma ShortLineUntranslated(tr: Phrase, un: Phrase)
    requires MsgfmtPhrase(tr, "translated") && MsgfmtPhrase(un, "untranslated")
    ensures CountOf(Text([tr, un]), "untranslated") == DecimalValue(un.digits)
  {
    ShortLineShape(tr, un);
    OtherLetter(tr, "untranslated");
    CountOfPhrases([tr, un], "untranslated");
    PhraseCountIsFirst([tr, un], "untranslated", 1);
  }

  /**
   * A line without the fuzzy phrase, as msgfmt writes when there are no fuzzy
   * entries: the missing count is 0 and no error.
   */
  lemma LineWithoutFuzzyParses(tr: Phrase, un: Phrase)
    requires MsgfmtPhrase(tr, "translated") && MsgfmtPhrase(un, "untranslated")
    ensures var t, u := DecimalValue(tr.digits), DecimalValue(un.digits);
      ParseStats(Text([tr, un])) == Counts(t + u, t, 0, u)
  {
    ShortLineTranslated(tr, un);
    ShortLineFuzzy(tr, un);
    ShortLineUntranslated(tr, un);
  }
}
