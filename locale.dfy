/**
 * The label of a catalog file, as `get_locale_name_from_path` computes it:
 * the path is split into segments on both kinds of slash; the segment after the
 * first segment equal to "locale" is the label, unless that marker is the last
 * segment or there is none, in which case the label is the POSIX basename of the
 * path as given (everything after its last forward slash, extension included).
 */
module Locale {
  import opened Wrappers

  /** The directory name that marks per-language folders. */
  const Marker: string := "locale"

  /** `path.replace("\\", "/")`: every backslash becomes a forward slash. */
  function Normalize(path: string): (r: string)
    ensures |r| == |path|
    ensures forall i :: 0 <= i < |path| ==> r[i] == if path[i] == '\\' then '/' else path[i]
    ensures '\\' !in r
  {
    if path == [] then []
    else [if path[0] == '\\' then '/' else path[0]] + Normalize(path[1..])
  }

  /** The segments joined back together with `sep` between each two. */
  function Join(parts: seq<string>, sep: char): string
    requires |parts| > 0
  {
    if |parts| == 1 then parts[0] else parts[0] + [sep] + Join(parts[1..], sep)
  }

  /**
   * `s.split("/")`: the segments between the slashes, empty ones included.
   * Join undoes it, and no segment holds a slash; SplitUnique shows that
   * these two facts determine the result.
   */
  function Split(s: string): (r: seq<string>)
    ensures |r| > 0
    ensures forall k :: 0 <= k < |r| ==> '/' !in r[k]
    ensures Join(r, '/') == s
  {
    if s == [] then [""]
    else
      var rest := Split(s[1..]);
      if s[0] == '/' then [""] + rest
      else
        JoinPrepend(s[0], rest);
        [[s[0]] + rest[0]] + rest[1..]
  }

  /** Prepending a character to the first segment prepends it to the join. */
  lemma {:induction false} JoinPrepend(c: char, parts: seq<string>)
    requires |parts| > 0
    ensures Join([[c] + parts[0]] + parts[1..], '/') == [c] + Join(parts, '/')
  {
    var q := [[c] + parts[0]] + parts[1..];
    assert q[1..] == parts[1..];
  }

  /** A slash-free decomposition that joins to `s` is `s.split("/")`. */
  lemma {:induction false} SplitUnique(s: string, parts: seq<string>)
    requires |parts| > 0
    requires forall k :: 0 <= k < |parts| ==> '/' !in parts[k]
    requires Join(parts, '/') == s
    ensures parts == Split(s)
  {
    if s == [] {
      assert |parts| == 1;
      assert parts == [""];
    } else if parts[0] == [] {
      // s starts with the slash after an empty first segment
      assert |parts| > 1;
      assert s == "/" + Join(parts[1..], '/');
      assert s[1..] == Join(parts[1..], '/');
      SplitUnique(s[1..], parts[1..]);
      assert s[0] == '/';
      assert parts == [""] + parts[1..];
    } else {
      var c := parts[0][0];
      var p0 := parts[0][1..];
      var tail := [p0] + parts[1..];
      assert parts[0] == [c] + p0;
      assert tail[1..] == parts[1..];
      assert [[c] + tail[0]] + tail[1..] == parts;
      JoinPrepend(c, tail);
      assert s == [c] + Join(tail, '/');
      assert s[1..] == Join(tail, '/');
      assert forall k :: 0 <= k < |tail| ==> '/' !in tail[k] by {
        forall k | 0 <= k < |tail| ensures '/' !in tail[k] {
          if k == 0 {
            assert forall ch :: ch in p0 ==> ch in parts[0];
          } else {
            assert tail[k] == parts[k];
          }
        }
      }
      SplitUnique(s[1..], tail);
      assert c != '/' by { assert c in parts[0]; }
    }
  }

  /** The segments of the path with both kinds of slash treated alike. */
  function Parts(path: string): seq<string> {
    Split(Normalize(path))
  }

  /** `parts.index(x)` when `x in parts`: the first position holding `x`. */
  function IndexOf(parts: seq<string>, x: string): (r: Option<nat>)
    ensures r.None? <==> x !in parts
    ensures r.Some? ==> r.value < |parts| && parts[r.value] == x && x !in parts[..r.value]
  {
    if parts == [] then None
    else if parts[0] == x then Some(0)
    else
      match IndexOf(parts[1..], x)
      case None => None
      case Some(i) =>
        assert parts[..i + 1] == [parts[0]] + parts[1..][..i];
        Some(i + 1)
  }

  /**
   * `os.path.basename(path)` on POSIX: the longest suffix of `path` without a
   * forward slash. Backslashes stay in it.
   */
  function BaseName(path: string): (r: string)
    ensures |r| <= |path| && r == path[|path| - |r|..]
    ensures '/' !in r
    ensures |r| == |path| || path[|path| - |r| - 1] == '/'
  {
    if path == [] then []
    else if path[|path| - 1] == '/' then []
    else
      var r := BaseName(path[..|path| - 1]) + [path[|path| - 1]];
      assert path[..|path| - 1][|path| - |r|..] + [path[|path| - 1]] == path[|path| - |r|..];
      r
  }

  /** The label `get_locale_name_from_path` gives the file at `path`. */
  function LocaleName(path: string): (r: string)
    ensures var parts := Parts(path);
      forall i :: 0 <= i < |parts| - 1 && parts[i] == Marker && Marker !in parts[..i] ==> r == parts[i + 1]
    ensures var parts := Parts(path);
      Marker !in parts[..|parts| - 1] ==> r == BaseName(path)
  {
    var parts := Parts(path);
    match IndexOf(parts, Marker)
    case Some(i) =>
      if i + 1 != |parts| then parts[i + 1]
      else
        BaseName(path)
    case None => BaseName(path)
  }

  /** Neither kind of slash occurs in any segment. */
  predicate PlainSegments(parts: seq<string>) {
    forall k :: 0 <= k < |parts| ==> '/' !in parts[k] && '\\' !in parts[k]
  }

  /** Normalizing distributes over concatenation. */
  lemma NormalizeAppend(a: string, b: string)
    ensures Normalize(a + b) == Normalize(a) + Normalize(b)
  {
    var l, r := Normalize(a + b), Normalize(a) + Normalize(b);
    assert |l| == |r|;
    forall i | 0 <= i < |l| ensures l[i] == r[i] {
      if i < |a| { assert (a + b)[i] == a[i]; } else { assert (a + b)[i] == b[i - |a|]; }
    }
  }

  /** Segments joined with either kind of slash normalize to the '/'-join. */
  lemma {:induction false} NormalizeJoin(parts: seq<string>, sep: char)
    requires |parts| > 0 && PlainSegments(parts)
    requires sep == '/' || sep == '\\'
    ensures Normalize(Join(parts, sep)) == Join(parts, '/')
  {
    var p0 := parts[0];
    assert Normalize(p0) == p0 by {
      forall i | 0 <= i < |p0| ensures Normalize(p0)[i] == p0[i] {
        assert p0[i] in parts[0];
      }
    }
    if |parts| > 1 {
      assert PlainSegments(parts[1..]) by {
        forall k | 0 <= k < |parts| - 1 ensures '/' !in parts[1..][k] && '\\' !in parts[1..][k] {
          assert parts[1..][k] == parts[k + 1];
        }
      }
      NormalizeJoin(parts[1..], sep);
      NormalizeAppend(p0 + [sep], Join(parts[1..], sep));
      NormalizeAppend(p0, [sep]);
    }
  }

  /** The '/'-join ends with its last segment, after a slash when there are several. */
  lemma {:induction false} JoinSnoc(parts: seq<string>, sep: char)
    requires |parts| > 1
    ensures Join(parts, sep) == Join(parts[..|parts| - 1], sep) + [sep] + parts[|parts| - 1]
  {
    if |parts| > 2 {
      JoinSnoc(parts[1..], sep);
      assert parts[1..][..|parts| - 2] == parts[..|parts| - 1][1..];
    } else {
      assert parts[..1] == [parts[0]];
    }
  }

  /** A segment that contains no separator is never split off by Join. */
  lemma {:induction false} JoinWithout(parts: seq<string>, sep: char, c: char)
    requires |parts| > 0 && c != sep
    requires forall k :: 0 <= k < |parts| ==> c !in parts[k]
    ensures c !in Join(parts, sep)
  {
    if |parts| > 1 {
      JoinWithout(parts[1..], sep, c);
    }
  }

  /** The basename of `a/b` is `b` when `b` holds no slash. */
  lemma {:induction false} BaseNameAfterSlash(a: string, b: string)
    requires '/' !in b
    ensures BaseName(a + "/" + b) == b
  {
    var s := a + "/" + b;
    if b != [] {
      var b' := b[..|b| - 1];
      assert s[..|s| - 1] == a + "/" + b';
      assert s[|s| - 1] == b[|b| - 1];
      assert b[|b| - 1] in b;
      assert '/' !in b' by {
        assert forall ch :: ch in b' ==> ch in b;
      }
      BaseNameAfterSlash(a, b');
      assert b' + [b[|b| - 1]] == b;
    }
  }

  /**
   * With the marker among the segments, the label is the segment right after
   * its first occurrence, whichever slash separates them.
   */
  lemma LabelAfterMarker(prefix: seq<string>, tag: string, rest: seq<string>, sep: char)
    requires PlainSegments(prefix + [Marker, tag] + rest)
    requires sep == '/' || sep == '\\'
    requires Marker !in prefix
    ensures LocaleName(Join(prefix + [Marker, tag] + rest, sep)) == tag
  {
    var parts := prefix + [Marker, tag] + rest;
    NormalizeJoin(parts, sep);
    SplitUnique(Join(parts, '/'), parts);
    assert parts[..|prefix|] == prefix;
    assert parts[|prefix|] == Marker && parts[|prefix| + 1] == tag;
  }

  /**
   * With no marker before the last segment, a '/'-separated path is labelled
   * by its last segment, extension included.
   */
  lemma LabelFallsBackToLastSegment(parts: seq<string>)
    requires |parts| > 0 && PlainSegments(parts)
    requires Marker !in parts[..|parts| - 1]
    ensures LocaleName(Join(parts, '/')) == parts[|parts| - 1]
  {
    var path := Join(parts, '/');
    NormalizeJoin(parts, '/');
    SplitUnique(path, parts);
    if |parts| > 1 {
      JoinSnoc(parts, '/');
      BaseNameAfterSlash(Join(parts[..|parts| - 1], '/'), parts[|parts| - 1]);
    }
  }

  /**
   * The fallback basename is POSIX: in a '\\'-separated path without a marker
   * before the last segment the label is the whole path.
   */
  lemma FallbackKeepsBackslashes(parts: seq<string>)
    requires |parts| > 0 && PlainSegments(parts)
    requires Marker !in parts[..|parts| - 1]
    ensures LocaleName(Join(parts, '\\')) == Join(parts, '\\')
  {
    var path := Join(parts, '\\');
    NormalizeJoin(parts, '\\');
    SplitUnique(Join(parts, '/'), parts);
    JoinWithout(parts, '\\', '/');
  }
}
