# po_progress in Dafny

A model of `scripts/po_progress.py`, the script that turns gettext catalogs
(`.po` files) into a horizontal bar chart of how much of each language is
translated. For every catalog given on the command line, the script:

1. runs `msgfmt --statistics` on the catalog;
2. reads the translated, fuzzy and untranslated counts off the tool's error
   stream with three regular-expression searches;
3. labels the catalog by the directory that follows a `locale` segment in its
   path, or else by the path's base name;
4. builds one row per catalog with `translated / total * 100`;
5. sorts the rows ascending by that percent;
6. hands them to matplotlib.

The model covers steps 2–5 and the argument handling of `main`. It proves
what each of them promises.

Modules, one per concern of the script:

- `Locale` (`locale.dfy`) — `get_locale_name_from_path`, with:
  - `str.replace` and `str.split` on slashes, whose results are shown to be
    unique and inverse to joining;
  - `list.index`;
  - a POSIX `os.path.basename`.
- `Stats` (`stats.dfy`) — the parsing half of `get_stats`:
  - the searches `(\d+)\s+translated`, `(\d+)\s+fuzzy` and
    `(\d+)\s+untranslated`;
  - a greedy matcher, proved equal to the pattern's meaning, including that it
    finds the leftmost match;
  - `int` of the digit run;
  - the defaults of 0 and the sum.
- `StatsLine` (`statsline.dfy`) — what those searches make of a text made of
  phrases such as `12 translated messages, `: a single phrase, and a whole
  statistics line as msgfmt writes it, with or without its fuzzy phrase.
- `Report` (`report.dfy`) — `create_rows` as a loop, proved against a
  function of the paths, including the ZeroDivisionError on a catalog whose
  total is 0. Also the `sorted(..., key=percent)` of `create_chart`: proved
  ascending, a permutation, and stable, in the sense that for every percent
  the rows with that percent keep their input order.
- `Cli` (`cli.dfy`) — `main`'s test on `len(sys.argv)` and its slicing into
  input paths and output path.
- `Wrappers` (`wrappers.dfy`) — `Option` and `Result`.

What the script gets from outside is a parameter: `statsOf: string -> string`
stands for running `msgfmt --statistics -o /dev/null <path>`, decoding its
error stream as UTF-8 and stripping it. `sys.argv` is the `args` parameter of
`Cli.Run`.

The percent is kept exact. `Report.PercentValue` is the real number
`translated / total * 100` that line 50 computes, and `Report.Percent` is the
same value as a fraction. The sort compares two rows by cross-multiplication,
`a.translated * b.total <= b.translated * a.total`.
`Report.PercentLeComparesPercents` proves that this comparison orders the rows
by PercentValue.

Some members have no row of their own in the table below, because the row of
another member states their property:

- `Stats.CountOf` (lines 23 and 29–34, the default 0 and `int(group(1))`) is
  described by `Stats.CountOfIsSearchCount`.
- `Stats.DecimalValue` (the `int()` of lines 30, 32 and 34) is the value in
  `Stats.FirstCountIsRegexSearch`.
- `Locale.Parts` (the whole of line 9, `Normalize` followed by `Split`) is what
  `Locale.LocaleName` is stated over.
- `Report.RowsFor` (the list `create_rows` returns) is described by
  `Report.CreateRows` and `Report.CreatedRow`.
- `Report.PercentLe` (the comparison `sorted` makes on line 57) is described by
  `Report.PercentLeComparesPercents`.

Facts about the script that a reader might not expect:

- The fallback label is the whole base name, extension included
  (`messages.po`, not `messages`).
- No display-name lookup turns a locale tag into a language name.
- There is no option to drop languages with zero translated strings.
- There are no theme options.
- A catalog whose total is 0 ends the run with ZeroDivisionError.
- The annotation text is formatted `f"{pct:.1f}%"` (for example `50.0%`).
  The annotation is plotting code and is not modelled.

## Model

| member | source | states |
|---|---|---|
| Locale.Normalize | scripts/po_progress.py:9 | `path.replace("\\", "/")`: same length, every backslash becomes a slash and nothing else changes, no backslash is left |
| Locale.Split | scripts/po_progress.py:9 | `split("/")`: at least one segment, no segment contains a slash, and joining the segments with `/` gives back the string |
| Locale.SplitUnique | scripts/po_progress.py:9 | any slash-free list of segments that joins to `s` is `Split(s)`, so the split is the only one |
| Locale.IndexOf | scripts/po_progress.py:10-11 | `"locale" in parts` and `parts.index("locale")`: None exactly when absent, otherwise the first position holding it |
| Locale.BaseName | scripts/po_progress.py:14 | POSIX `os.path.basename`: the longest suffix without a forward slash, which starts the path or follows a slash |
| Locale.LocaleName | scripts/po_progress.py:8-14 | the label is the segment after the first `locale` segment, when that segment is not the last; otherwise it is the base name of the original path |
| Locale.LabelAfterMarker | scripts/po_progress.py:9-13 | for a path of plain segments joined by `/` or `\`, with `locale` first occurring before segment `tag`, the label is `tag`, even when `tag` is empty |
| Locale.LabelFallsBackToLastSegment | scripts/po_progress.py:10-14 | with no `locale` before the last segment of a `/`-separated path, the label is the last segment, extension kept; this includes a path whose only `locale` is the last segment |
| Locale.FallbackKeepsBackslashes | scripts/po_progress.py:9-14 | the fallback uses the original path, so a `\`-separated path with no usable `locale` segment is labelled by the whole path |
| Stats.DigitEnd | scripts/po_progress.py:25-27 | the greedy `\d+`: the end of the longest digit run from `p` |
| Stats.SpaceEnd | scripts/po_progress.py:25-27 | the greedy `\s+`: the end of the longest whitespace run from `p` |
| Stats.FindMatch | scripts/po_progress.py:25-27 | the first position from `p` on where the greedy attempt succeeds, with no success before it; None when there is none |
| Stats.FirstCount | scripts/po_progress.py:25-34 | the search result read by `int(group(1))`: None exactly when no greedy attempt succeeds, otherwise the value of the digits at the first success |
| Stats.MatchHereIsRegexMatch | scripts/po_progress.py:25-27 | the greedy attempt at `p` succeeds exactly when the pattern `(\d+)\s+kw` matches at `p` under some split of the text |
| Stats.FindMatchIsLeftmost | scripts/po_progress.py:25-27 | the position found is the leftmost position where the pattern matches; when none is found, the pattern matches nowhere |
| Stats.FirstCountIsRegexSearch | scripts/po_progress.py:25-34 | FirstCount is None exactly when the pattern matches nowhere; otherwise it is the value of the digit run starting at the leftmost match |
| Stats.LeftmostMatchStartsDigitRun | scripts/po_progress.py:25-27 | the leftmost match never starts inside a longer number: the character before it is not a digit |
| Stats.CountOfIsSearchCount | scripts/po_progress.py:23-34 | a count is 0 when its pattern matches nowhere, which is not an error; otherwise it is the number at the leftmost match |
| Stats.ParseStats | scripts/po_progress.py:23-37 | total = translated + fuzzy + untranslated, and each count is at most the total |
| Stats.ParseStatsCountsAreSearches | scripts/po_progress.py:25-34 | each of the three counts is what its own search reports, 0 when that search finds nothing |
| Stats.GetStats | scripts/po_progress.py:21-37 | the step-by-step `get_stats` (counts start at 0, each is overwritten when its search succeeds, the total is summed) yields ParseStats of the stats text |
| StatsLine.FindMatchSkip | scripts/po_progress.py:25-27 | the search skips positions where the greedy attempt fails |
| StatsLine.PhraseAttempts | scripts/po_progress.py:25-27 | inside one phrase the greedy attempt succeeds only at its number, and only when its words begin with the keyword |
| StatsLine.SearchFrom | scripts/po_progress.py:25-34 | searching a run of phrases from its start gives the number of the first phrase whose words begin with the keyword, and 0 when there is none |
| StatsLine.CountOfPhrases | scripts/po_progress.py:25-34 | the count for a keyword in a run of phrases is PhraseCount: the number of the first phrase carrying the keyword, and 0 when there is none |
| StatsLine.PhraseCountIsFirst | scripts/po_progress.py:25-34 | PhraseCount is the number of the first phrase whose words begin with the keyword |
| StatsLine.FullLineParses | scripts/po_progress.py:21-37 | msgfmt's line `t translated …, f fuzzy …, u untranslated …` parses to (t+f+u, t, f, u), whatever words follow each keyword |
| StatsLine.LineWithoutFuzzyParses | scripts/po_progress.py:21-37 | a line with no fuzzy phrase parses to (t+u, t, 0, u) |
| StatsLine.OtherKeywordCountsZero | scripts/po_progress.py:25-34 | a single phrase `<digits><spaces><tail>` gives count 0 to any keyword that does not start like `tail` |
| StatsLine.OwnKeywordCountsNumber | scripts/po_progress.py:25-34 | a single phrase `<digits><spaces>kw` gives keyword `kw` the number `int(digits)` |
| StatsLine.UntranslatedIsNotTranslated | scripts/po_progress.py:25-37 | `"<n> untranslated"` parses to (n, 0, 0, n): the translated search does not fire inside "untranslated" |
| Report.Percent | scripts/po_progress.py:50 | `translated / total * 100` as an exact fraction whose value is PercentValue, in [0, 100] when the counts add up |
| Report.RowFor | scripts/po_progress.py:43-51 | a row built from a path whose total is positive is well formed: its counts add up |
| Report.MapRows | scripts/po_progress.py:42-51 | one row per path |
| Report.FirstZeroTotal | scripts/po_progress.py:42-50 | the first row whose total is 0; None exactly when every total is positive |
| Report.CreateRows | scripts/po_progress.py:39-52 | the loop succeeds exactly when every path's total is positive, and then returns RowsFor(paths); otherwise it fails with ZeroDivisionError at the first path whose total is 0 |
| Report.CreatedRow | scripts/po_progress.py:39-52 | row `i` of a successful `create_rows` belongs to path `i`: its label is LocaleName(path) and its counts are parsed from that path's stats; it is well formed with a percent in [0, 100] |
| Report.Insert | scripts/po_progress.py:57 | an insertion step of the sort adds exactly one element (multiset) |
| Report.SortByPercent | scripts/po_progress.py:57 | the sort is a permutation of its input (multiset equality, same length) |
| Report.PercentLeComparesPercents | scripts/po_progress.py:50-57 | for positive totals, the cross-multiplied comparison holds exactly when `translated / total * 100` of the first row is at most that of the second, and the two rows tie exactly when these values are equal |
| Report.PercentLeTrans | scripts/po_progress.py:57 | the key order is transitive through any row with a positive total |
| Report.InsertOrdered | scripts/po_progress.py:57 | inserting into an ascending sequence keeps it ascending |
| Report.SortByPercentOrdered | scripts/po_progress.py:57 | rows with positive totals come out sorted ascending by percent, for every pair of positions |
| Report.WithPercentOfInsert | scripts/po_progress.py:57 | an insertion puts the row after every earlier row of the same percent and disturbs no other percent class |
| Report.SortByPercentStable | scripts/po_progress.py:57 | stability: for every percent, the subsequence of rows with that percent is the same before and after the sort |
| Report.HalfBeforeFull | scripts/po_progress.py:57 | rows of 5/10 and 4/4 come out as [50%, 100%] in either input order |
| Report.CreateChart | scripts/po_progress.py:54-86 | `create_chart` fails exactly when `create_rows` does; on success its rows are the sorted rows, ascending, a permutation and stable; `-` means standard output and any other path names a file |
| Cli.SplitArgs | scripts/po_progress.py:90-96 | fewer than three arguments shows usage (an empty vector raises IndexError at `args[0]`); otherwise there is at least one input, and args = [program] + inputs + [output] |
| Cli.SplitArgsInverts | scripts/po_progress.py:95-96 | every nonempty input list and every output path are what some command line is split into |
| Cli.OutputIsLastArgument | scripts/po_progress.py:95-96 | appending an argument makes it the output and turns the old output into the last input |
| Cli.Run | scripts/po_progress.py:89-97 | `main`: it raises IndexError, shows the usage line, draws the chart of `args[1:-1]` into `args[-1]`, or fails with ZeroDivisionError exactly as `create_chart` does |

## Left out

- Running `msgfmt` through `subprocess` (lines 17–19): the `statsOf` parameter stands for it.
- UTF-8 decoding with `errors="ignore"` and `strip()` (line 21): `statsOf` already returns decoded text.
- Stats.IsDigit and Stats.IsSpace: Unicode `\d` and `\s` are restricted to ASCII. `\d` is `0`–`9`. `\s` is code points 9–13 and 28–32.
- Stats.DecimalValue: the digit run is converted without bound. Since Python 3.11 (and in the 3.7–3.10 security releases), `int()` raises ValueError on more than 4300 digits, and `get_stats` would not catch it. msgfmt never writes such numbers.
- Locale.BaseName: only POSIX `os.path.basename` is modelled. On Windows a backslash would also end the base name.
- Report.Percent: the percent is exact, not a float. Float rounding can make two different fractions equal, which can order two nearly equal rows differently from the model.
- The plotting (lines 58–87): figure size, bars, tick labels, axis limits, the `:.1f` annotations and the PNG encoding go to matplotlib. `Report.Chart` carries only the sorted rows (from which lines 58–59 take labels and percents) and the output target.
- Writing the usage line to standard output (line 92): `Cli.Run` returns the line in its outcome.
- Exit status: none of the script's outcomes is modelled as a process exit code.
