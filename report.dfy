/**
 * The rows of the chart: `create_rows` builds one row per catalog, in input
 * order, and fails with a division by zero on a catalog whose total is 0;
 * `create_chart` then sorts them, stably, by ascending percent translated.
 * Percent is kept exact: a row's percent is translated / total * 100, and two
 * rows are compared by cross-multiplying their (translated, total) pairs.
 */
module Report {
  import opened Wrappers
  import Locale
  import Stats

  /** One row of `create_rows`: the catalog's label and its counts. */
  datatype Row = Row(lang: string, total: nat, translated: nat, fuzzy: nat, untranslated: nat)

  /** The ZeroDivisionError `translated / total` raises, at the position of the offending path. */
  datatype Error = ZeroDivisionError(at: nat)

  /** A non-negative rational number `num / den`. */
  datatype Fraction = Fraction(num: nat, den: nat)

  /** A row as `create_rows` can produce it: the counts add up, and the total is not zero. */
  predicate WellFormed(r: Row) {
    r.total == r.translated + r.fuzzy + r.untranslated && r.total > 0
  }

  /** The row's `percent` field, `translated / total * 100`, as an exact fraction. */
  function Percent(r: Row): (p: Fraction)
    requires r.total > 0
    ensures p.den > 0 && p.num * r.total == 100 * r.translated * p.den
    ensures WellFormed(r) ==> p.num <= 100 * p.den
    ensures p.num as real / p.den as real == PercentValue(r)
  {
    Fraction(100 * r.translated, r.total)
  }

  /** The row for a catalog labelled `lang` whose statistics parse to `c`. */
  function MakeRow(lang: string, c: Stats.Counts): Row {
    Row(lang, c.total, c.translated, c.fuzzy, c.untranslated)
  }

  /** The row `create_rows` builds for `path`, the stats text coming from `statsOf`. */
  function RowFor(path: string, statsOf: string -> string): (r: Row)
    ensures r.total > 0 ==> WellFormed(r)
  {
    MakeRow(Locale.LocaleName(path), Stats.ParseStats(statsOf(path)))
  }

  /** RowFor as a function of the path alone. */
  function RowOf(statsOf: string -> string): string -> Row {
    path => RowFor(path, statsOf)
  }

  /** `rowOf` applied to each path, in order. */
  function MapRows(paths: seq<string>, rowOf: string -> Row): (rows: seq<Row>)
    ensures |rows| == |paths|
  {
    if paths == [] then [] else MapRows(paths[..|paths| - 1], rowOf) + [rowOf(paths[|paths| - 1])]
  }

  /** The rows `create_rows` returns when it does not fail: one per path, in order. */
  function RowsFor(paths: seq<string>, statsOf: string -> string): (rows: seq<Row>)
    ensures |rows| == |paths|
  {
    MapRows(paths, RowOf(statsOf))
  }

  /** The position of the first row whose total is 0, where `translated / total` raises. */
  function FirstZeroTotal(rows: seq<Row>): (r: Option<nat>)
    ensures r.Some? ==> r.value < |rows| && rows[r.value].total == 0
    ensures r.Some? ==> forall i :: 0 <= i < r.value ==> rows[i].total > 0
    ensures r.None? <==> Positive(rows)
  {
    if rows == [] then None
    else
      var k := FirstZeroTotal(rows[..|rows| - 1]);
      if k.Some? then k
      else if rows[|rows| - 1].total == 0 then Some(|rows| - 1)
      else None
  }

  /** A zero total found in a prefix is the first one of the whole sequence. */
  lemma {:induction false} FirstZeroTotalOfPrefix(rows: seq<Row>, n: nat)
    requires n <= |rows| && FirstZeroTotal(rows[..n]).Some?
    ensures FirstZeroTotal(rows) == FirstZeroTotal(rows[..n])
    decreases |rows| - n
  {
    if n < |rows| {
      assert rows[..n + 1][..n] == rows[..n];
      FirstZeroTotalOfPrefix(rows, n + 1);
    } else {
      assert rows[..n] == rows;
    }
  }

  /** The rows of a prefix of the paths are a prefix of the rows. */
  lemma {:induction false} MapRowsPrefix(paths: seq<string>, rowOf: string -> Row, n: nat)
    requires n <= |paths|
    ensures MapRows(paths[..n], rowOf) == MapRows(paths, rowOf)[..n]
    decreases |paths| - n
  {
    if n < |paths| {
      var m := |paths| - 1;
      assert paths[..m][..n] == paths[..n];
      MapRowsPrefix(paths[..m], rowOf, n);
    } else {
      assert paths[..n] == paths;
    }
  }

  /** One more path adds its own row at the end. */
  lemma RowsForNext(paths: seq<string>, statsOf: string -> string, i: nat)
    requires i < |paths|
    ensures RowsFor(paths[..i + 1], statsOf) == RowsFor(paths[..i], statsOf) + [RowFor(paths[i], statsOf)]
  {
    assert paths[..i + 1][..i] == paths[..i];
  }

  /**
   * `create_rows(paths)`: the rows of all paths, in order, or the division by
   * zero raised at the first path whose counts sum to 0.
   */
  method CreateRows(paths: seq<string>, statsOf: string -> string) returns (r: Result<seq<Row>, Error>)
    ensures r.Success? <==> Positive(RowsFor(paths, statsOf))
    ensures r.Success? ==> r.value == RowsFor(paths, statsOf)
    ensures r.Failure? ==> FirstZeroTotal(RowsFor(paths, statsOf)) == Some(r.error.at)
  {
    var rows: seq<Row> := [];
    for i := 0 to |paths|
      invariant rows == RowsFor(paths[..i], statsOf)
      invariant Positive(rows)
    {
      var f := paths[i];
      var c := Stats.GetStats(f, statsOf);
      var row := MakeRow(Locale.LocaleName(f), c);
      RowsForNext(paths, statsOf, i);
      if c.total == 0 {
        assert FirstZeroTotal(RowsFor(paths[..i + 1], statsOf)) == Some(i);
        MapRowsPrefix(paths, RowOf(statsOf), i + 1);
        FirstZeroTotalOfPrefix(RowsFor(paths, statsOf), i + 1);
        return Failure(ZeroDivisionError(i));
      }
      rows := rows + [row];
    }
    assert paths[..|paths|] == paths;
    return Success(rows);
  }

  /** The row at position `i` is built from the path at position `i` alone. */
  lemma {:induction false} MapRowsAt(paths: seq<string>, rowOf: string -> Row, i: nat)
    requires i < |paths|
    ensures MapRows(paths, rowOf)[i] == rowOf(paths[i])
  {
    var n := |paths| - 1;
    if i < n {
      assert paths[..n][i] == paths[i];
      MapRowsAt(paths[..n], rowOf, i);
    }
  }

  /**
   * What a successful `create_rows` returns: one row per path, in input order,
   * labelled and counted from that path alone, with a percent in [0, 100].
   */
  lemma CreatedRow(paths: seq<string>, statsOf: string -> string, i: nat)
    requires i < |paths| && Positive(RowsFor(paths, statsOf))
    ensures |RowsFor(paths, statsOf)| == |paths|
    ensures var row := RowsFor(paths, statsOf)[i];
      && row.lang == Locale.LocaleName(paths[i])
      && row.translated == Stats.ParseStats(statsOf(paths[i])).translated
      && row.fuzzy == Stats.ParseStats(statsOf(paths[i])).fuzzy
      && row.untranslated == Stats.ParseStats(statsOf(paths[i])).untranslated
      && WellFormed(row)
      && Percent(row).num <= 100 * Percent(row).den
  {
    MapRowsAt(paths, RowOf(statsOf), i);
    assert RowsFor(paths, statsOf)[i] == RowFor(paths[i], statsOf);
  }

  /** `a["percent"] <= b["percent"]`, by cross-multiplication. */
  predicate PercentLe(a: Row, b: Row) {
    a.translated * b.total <= b.translated * a.total
  }

  /** `a["percent"] == b["percent"]`, by cross-multiplication. */
  predicate SamePercent(a: Row, b: Row) {
    a.translated * b.total == b.translated * a.total
  }

  predicate Positive(rows: seq<Row>) {
    forall k :: 0 <= k < |rows| ==> rows[k].total > 0
  }

  /** Ascending by percent. */
  predicate Ordered(rows: seq<Row>) {
    forall i, j :: 0 <= i < j < |rows| ==> PercentLe(rows[i], rows[j])
  }

  /** The rows with the same percent as `k`, in the order they appear. */
  function WithPercentOf(rows: seq<Row>, k: Row): seq<Row> {
    if rows == [] then []
    else (if SamePercent(rows[0], k) then [rows[0]] else []) + WithPercentOf(rows[1..], k)
  }

  /** Puts `x` after every row of `s` whose percent is at most its own. */
  function Insert(s: seq<Row>, x: Row): (r: seq<Row>)
    ensures multiset(r) == multiset(s) + multiset{x}
  {
    if s == [] then [x]
    else if !PercentLe(s[0], x) then [x] + s
    else
      assert s == [s[0]] + s[1..];
      [s[0]] + Insert(s[1..], x)
  }

  /** `sorted(rows, key=lambda k: k["percent"])`: a stable sort, by insertion. */
  function SortByPercent(rows: seq<Row>): (r: seq<Row>)
    ensures multiset(r) == multiset(rows) && |r| == |rows|
  {
    if rows == [] then []
    else
      var n := |rows| - 1;
      assert rows == rows[..n] + [rows[n]];
      assert multiset(rows) == multiset(rows[..n]) + multiset{rows[n]};
      var r := Insert(SortByPercent(rows[..n]), rows[n]);
      assert |r| == |multiset(r)|;
      r
  }

  /** Row `a` has a strictly smaller percent than row `b`. */
  predicate PercentLt(a: Row, b: Row) {
    a.translated * b.total < b.translated * a.total
  }

  lemma MulMonotone(x: nat, y: nat, k: nat)
    requires x <= y
    ensures x * k <= y * k
  {
  }

  lemma MulStrict(x: nat, y: nat, k: nat)
    requires x < y && k > 0
    ensures x * k < y * k
  {
  }

  lemma MulCancel(x: nat, y: nat, k: nat)
    requires k > 0
    ensures x * k <= y * k ==> x <= y
    ensures x * k < y * k ==> x < y
    ensures x * k == y * k ==> x == y
  {
  }

  /** `translated / total * 100`, the value line 50 stores, as a real number. */
  function PercentValue(r: Row): real
    requires r.total > 0
  {
    r.translated as real / r.total as real * 100.0
  }

  /** The sort key compares the percents `create_rows` computes. */
  lemma PercentLeComparesPercents(a: Row, b: Row)
    requires a.total > 0 && b.total > 0
    ensures PercentLe(a, b) <==> PercentValue(a) <= PercentValue(b)
    ensures SamePercent(a, b) <==> PercentValue(a) == PercentValue(b)
  {
    var x := a.translated as real / a.total as real;
    var y := b.translated as real / b.total as real;
    assert x * a.total as real == a.translated as real;
    assert y * b.total as real == b.translated as real;
    assert (a.translated * b.total) as real == x * (a.total * b.total) as real;
    assert (b.translated * a.total) as real == y * (a.total * b.total) as real;
  }

  /** Percent order is transitive through a row with a non-zero total. */
  lemma PercentLeTrans(a: Row, b: Row, c: Row)
    requires b.total > 0 && PercentLe(a, b) && PercentLe(b, c)
    ensures PercentLe(a, c)
  {
    MulMonotone(a.translated * b.total, b.translated * a.total, c.total);
    MulMonotone(b.translated * c.total, c.translated * b.total, a.total);
    assert (a.translated * c.total) * b.total <= (c.translated * a.total) * b.total;
    MulCancel(a.translated * c.total, c.translated * a.total, b.total);
  }

  /** Strictly below, then at most: strictly below, through rows with non-zero totals. */
  lemma PercentLtLe(a: Row, b: Row, c: Row)
    requires b.total > 0 && c.total > 0 && PercentLt(a, b) && PercentLe(b, c)
    ensures PercentLt(a, c)
  {
    MulStrict(a.translated * b.total, b.translated * a.total, c.total);
    MulMonotone(b.translated * c.total, c.translated * b.total, a.total);
    assert (a.translated * c.total) * b.total < (c.translated * a.total) * b.total;
    MulCancel(a.translated * c.total, c.translated * a.total, b.total);
  }

  /** Two rows with the percent of a row with a non-zero total have the same percent. */
  lemma SamePercentThrough(a: Row, b: Row, k: Row)
    requires k.total > 0 && SamePercent(a, k) && SamePercent(b, k)
    ensures SamePercent(a, b)
  {
    assert (a.translated * b.total) * k.total == (b.translated * a.total) * k.total;
    MulCancel(a.translated * b.total, b.translated * a.total, k.total);
  }

  /** Rows that are a permutation of rows with non-zero totals have non-zero totals. */
  lemma PositivePermutation(a: seq<Row>, b: seq<Row>)
    requires multiset(a) == multiset(b) && Positive(a)
    ensures Positive(b)
  {
    forall j | 0 <= j < |b| ensures b[j].total > 0 {
      assert b[j] in multiset(b);
      assert b[j] in a;
    }
  }

  /** A row below the first row of a sorted sequence is below every row of it. */
  lemma BelowFirst(s: seq<Row>, x: Row)
    requires Ordered(s) && Positive(s) && |s| > 0 && PercentLe(x, s[0])
    ensures forall j :: 0 <= j < |s| ==> PercentLe(x, s[j])
  {
    forall j | 0 < j < |s| ensures PercentLe(x, s[j]) {
      PercentLeTrans(x, s[0], s[j]);
    }
  }

  /** A row strictly below the first row of a sorted sequence is strictly below every row of it. */
  lemma StrictlyBelowFirst(s: seq<Row>, x: Row)
    requires Ordered(s) && Positive(s) && |s| > 0 && PercentLt(x, s[0])
    ensures forall j :: 0 <= j < |s| ==> PercentLt(x, s[j])
  {
    forall j | 0 < j < |s| ensures PercentLt(x, s[j]) {
      PercentLtLe(x, s[0], s[j]);
    }
  }

  /** Putting a row in front of a sorted sequence that lies above it keeps it sorted. */
  lemma OrderedPrepend(x: Row, s: seq<Row>)
    requires Ordered(s) && forall j :: 0 <= j < |s| ==> PercentLe(x, s[j])
    ensures Ordered([x] + s)
  {
    var r := [x] + s;
    forall i, j | 0 <= i < j < |r| ensures PercentLe(r[i], r[j]) {
      assert r[j] == s[j - 1];
      if i > 0 {
        assert r[i] == s[i - 1];
      }
    }
  }

  /** Every row of `Insert(s, x)` is `x` or a row of `s`. */
  lemma InsertElements(s: seq<Row>, x: Row, j: nat)
    requires j < |Insert(s, x)|
    ensures Insert(s, x)[j] == x || Insert(s, x)[j] in s
  {
    var t := Insert(s, x);
    assert t[j] in multiset(t);
  }

  lemma {:induction false} InsertOrdered(s: seq<Row>, x: Row)
    requires Ordered(s) && Positive(s)
    ensures Ordered(Insert(s, x))
  {
    if s == [] {
    } else if !PercentLe(s[0], x) {
      BelowFirst(s, x);
      OrderedPrepend(x, s);
    } else {
      var t := Insert(s[1..], x);
      OrderedTail(s);
      InsertOrdered(s[1..], x);
      forall j | 0 <= j < |t| ensures PercentLe(s[0], t[j]) {
        InsertElements(s[1..], x, j);
      }
      OrderedPrepend(s[0], t);
    }
  }

  lemma {:induction false} SortByPercentOrdered(rows: seq<Row>)
    requires Positive(rows)
    ensures Ordered(SortByPercent(rows))
  {
    if rows != [] {
      var n := |rows| - 1;
      SortByPercentOrdered(rows[..n]);
      PositivePermutation(rows[..n], SortByPercent(rows[..n]));
      InsertOrdered(SortByPercent(rows[..n]), rows[n]);
    }
  }

  lemma WithPercentOfPrepend(x: Row, s: seq<Row>, k: Row)
    ensures WithPercentOf([x] + s, k) == (if SamePercent(x, k) then [x] else []) + WithPercentOf(s, k)
  {
    assert ([x] + s)[1..] == s;
  }

  lemma {:induction false} WithPercentOfAppend(a: seq<Row>, b: seq<Row>, k: Row)
    ensures WithPercentOf(a + b, k) == WithPercentOf(a, k) + WithPercentOf(b, k)
  {
    if a != [] {
      assert (a + b)[1..] == a[1..] + b;
      WithPercentOfAppend(a[1..], b, k);
    } else {
      assert a + b == b;
    }
  }

  /** No row strictly above a row of percent `k` has percent `k`. */
  lemma {:induction false} NoneAbove(s: seq<Row>, x: Row, k: Row)
    requires k.total > 0 && SamePercent(x, k)
    requires forall j :: 0 <= j < |s| ==> PercentLt(x, s[j])
    ensures WithPercentOf(s, k) == []
  {
    if s != [] {
      if SamePercent(s[0], k) {
        SamePercentThrough(x, s[0], k);
      }
      NoneAbove(s[1..], x, k);
    }
  }

  lemma OrderedTail(s: seq<Row>)
    requires Ordered(s) && Positive(s) && |s| > 0
    ensures Ordered(s[1..]) && Positive(s[1..])
  {
    forall i, j | 0 <= i < j < |s| - 1 ensures PercentLe(s[1..][i], s[1..][j]) {
      assert s[1..][i] == s[i + 1] && s[1..][j] == s[j + 1];
    }
  }

  /** The rows of percent `k` after `x` goes in front of the sorted rows above it. */
  lemma WithPercentOfInsertFront(s: seq<Row>, x: Row, k: Row)
    requires Ordered(s) && Positive(s) && k.total > 0
    requires s == [] || !PercentLe(s[0], x)
    ensures WithPercentOf([x] + s, k) == WithPercentOf(s, k) + (if SamePercent(x, k) then [x] else [])
  {
    WithPercentOfPrepend(x, s, k);
    if SamePercent(x, k) && s != [] {
      StrictlyBelowFirst(s, x);
      NoneAbove(s, x, k);
    }
  }

  lemma ConcatAssoc(a: seq<Row>, b: seq<Row>, c: seq<Row>)
    ensures a + (b + c) == (a + b) + c
  {
  }

  lemma InsertUnfold(s: seq<Row>, x: Row)
    requires s != [] && PercentLe(s[0], x)
    ensures Insert(s, x) == [s[0]] + Insert(s[1..], x)
  {
  }

  /** The step of `WithPercentOfInsert` past a first row that `x` goes after. */
  lemma WithPercentOfInsertStep(s: seq<Row>, x: Row, k: Row)
    requires s != [] && PercentLe(s[0], x)
    requires WithPercentOf(Insert(s[1..], x), k) == WithPercentOf(s[1..], k) + (if SamePercent(x, k) then [x] else [])
    ensures WithPercentOf(Insert(s, x), k) == WithPercentOf(s, k) + (if SamePercent(x, k) then [x] else [])
  {
    var t := Insert(s[1..], x);
    var head := if SamePercent(s[0], k) then [s[0]] else [];
    var added := if SamePercent(x, k) then [x] else [];
    var rest := WithPercentOf(s[1..], k);
    InsertUnfold(s, x);
    WithPercentOfPrepend(s[0], t, k);
    WithPercentOfPrepend(s[0], s[1..], k);
    assert [s[0]] + s[1..] == s;
    calc {
      WithPercentOf(Insert(s, x), k);
      WithPercentOf([s[0]] + t, k);
      head + WithPercentOf(t, k);
      head + (rest + added);
      { ConcatAssoc(head, rest, added); }
      (head + rest) + added;
      WithPercentOf(s, k) + added;
    }
  }

  /** Inserting a row adds it at the end of the rows of its own percent, and nowhere else. */
  lemma {:induction false} WithPercentOfInsert(s: seq<Row>, x: Row, k: Row)
    requires Ordered(s) && Positive(s) && k.total > 0
    ensures WithPercentOf(Insert(s, x), k) == WithPercentOf(s, k) + (if SamePercent(x, k) then [x] else [])
  {
    if s == [] || !PercentLe(s[0], x) {
      WithPercentOfInsertFront(s, x, k);
    } else {
      OrderedTail(s);
      WithPercentOfInsert(s[1..], x, k);
      WithPercentOfInsertStep(s, x, k);
    }
  }

  /** Splitting off the last row of `rows`. */
  lemma WithPercentOfSnoc(rows: seq<Row>, k: Row)
    requires rows != []
    ensures WithPercentOf(rows, k)
      == WithPercentOf(rows[..|rows| - 1], k) + (if SamePercent(rows[|rows| - 1], k) then [rows[|rows| - 1]] else [])
  {
    var n := |rows| - 1;
    var added := if SamePercent(rows[n], k) then [rows[n]] else [];
    assert rows == rows[..n] + [rows[n]];
    WithPercentOfAppend(rows[..n], [rows[n]], k);
    WithPercentOfPrepend(rows[n], [], k);
    assert added + [] == added;
  }

  /**
   * The sort is stable: for every percent, the rows with that percent come
   * out in the order they went in.
   */
  lemma {:induction false} SortByPercentStable(rows: seq<Row>, k: Row)
    requires Positive(rows) && k.total > 0
    ensures WithPercentOf(SortByPercent(rows), k) == WithPercentOf(rows, k)
  {
    if rows != [] {
      var n := |rows| - 1;
      var sorted := SortByPercent(rows[..n]);
      assert SortByPercent(rows) == Insert(sorted, rows[n]);
      WithPercentOfSnoc(rows, k);
      SortByPercentStable(rows[..n], k);
      SortByPercentOrdered(rows[..n]);
      PositivePermutation(rows[..n], sorted);
      WithPercentOfInsert(sorted, rows[n], k);
    }
  }

  /** Half translated sorts before fully translated, whichever comes first on the command line. */
  lemma HalfBeforeFull(half: Row, full: Row)
    requires half.total == 10 && half.translated == 5
    requires full.total == 4 && full.translated == 4
    ensures SortByPercent([half, full]) == [half, full]
    ensures SortByPercent([full, half]) == [half, full]
  {
    assert [half, full][..1] == [half] && [full, half][..1] == [full];
    assert SortByPercent([half]) == [half] && SortByPercent([full]) == [full];
  }

  /** Where the chart goes: `-` means standard output, anything else names a file. */
  datatype Target = Stdout | File(path: string)

  /** What `create_chart` hands to the plotting library: the rows in bar order and the target. */
  datatype Chart = Chart(rows: seq<Row>, target: Target)

  /**
   * `create_chart(inPaths, outPath)` up to the plotting: the rows of all input
   * paths sorted ascending by percent, stably, or the division by zero of
   * `create_rows`.
   */
  method CreateChart(inPaths: seq<string>, outPath: string, statsOf: string -> string) returns (r: Result<Chart, Error>)
    ensures r.Success? <==> Positive(RowsFor(inPaths, statsOf))
    ensures r.Failure? ==> FirstZeroTotal(RowsFor(inPaths, statsOf)) == Some(r.error.at)
    ensures r.Success? ==> r.value.rows == SortByPercent(RowsFor(inPaths, statsOf))
    ensures r.Success? ==> Ordered(r.value.rows) && multiset(r.value.rows) == multiset(RowsFor(inPaths, statsOf))
    ensures r.Success? ==> forall k: Row :: k.total > 0 ==> WithPercentOf(r.value.rows, k) == WithPercentOf(RowsFor(inPaths, statsOf), k)
    ensures r.Success? ==> r.value.target == if outPath == "-" then Stdout else File(outPath)
  {
    var rows := CreateRows(inPaths, statsOf);
    if rows.Failure? {
      return Failure(rows.error);
    }
    var sorted := SortByPercent(rows.value);
    SortByPercentOrdered(rows.value);
    forall k: Row | k.total > 0 ensures WithPercentOf(sorted, k) == WithPercentOf(rows.value, k) {
      SortByPercentStable(rows.value, k);
    }
    var target := if outPath == "-" then Stdout else File(outPath);
    return Success(Chart(sorted, target));
  }
}
