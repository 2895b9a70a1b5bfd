/** The string operations the tracker relies on, written as Python performs
    them on `str`: `t in s`, `s.lower()`, `s.split(sep)` and `s.strip()`. */
module Text {

  datatype Option<+T> = None | Some(value: T)

  // ---------------------------------------------------------------------------
  // Substring search (`t in s`)
  // ---------------------------------------------------------------------------

  /** `t` occurs in `s` starting at index `i`. */
  predicate OccursAt(s: string, t: string, i: nat)
  {
    i + |t| <= |s| && s[i..i + |t|] == t
  }

  /** The first index at or after `k` where `t` occurs in `s`. */
  function FindFrom(s: string, t: string, k: nat): (r: Option<nat>)
    requires k <= |s|
    ensures r.Some? ==> k <= r.value && OccursAt(s, t, r.value)
    decreases |s| - k
  {
    if k + |t| > |s| then None
    else if s[k..k + |t|] == t then Some(k)
    else FindFrom(s, t, k + 1)
  }

  /** `FindFrom` misses no occurrence: there is none between `k` and the
      index it returns, and none at all from `k` on when it returns `None`. */
  lemma {:induction false} FindFromLeftmost(s: string, t: string, k: nat, j: nat)
    requires k <= j && k <= |s|
    requires FindFrom(s, t, k).Some? ==> j < FindFrom(s, t, k).value
    ensures !OccursAt(s, t, j)
    decreases |s| - k
  {
    if k + |t| <= |s| && s[k..k + |t|] != t && k < j {
      FindFromLeftmost(s, t, k + 1, j);
    }
  }

  /** The index of the leftmost occurrence of `t` in `s` (Python's `s.find(t)`). */
  function IndexOf(s: string, t: string): (r: Option<nat>)
    ensures r.Some? ==> OccursAt(s, t, r.value)
  {
    FindFrom(s, t, 0)
  }

  /** No occurrence of `t` in `s` lies before the one `IndexOf` reports. */
  lemma IndexOfLeftmost(s: string, t: string, j: nat)
    requires IndexOf(s, t).Some? ==> j < IndexOf(s, t).value
    ensures !OccursAt(s, t, j)
  {
    FindFromLeftmost(s, t, 0, j);
  }

  /** Python's `t in s`: case-sensitive substring test. */
  function Contains(s: string, t: string): bool
  {
    IndexOf(s, t).Some?
  }

  /** `Contains` holds exactly when `t` occurs somewhere in `s`. */
  lemma ContainsOccurs(s: string, t: string)
    ensures Contains(s, t) <==> exists j: nat :: OccursAt(s, t, j)
  {
    if !Contains(s, t) {
      forall j: nat
        ensures !OccursAt(s, t, j)
      {
        IndexOfLeftmost(s, t, j);
      }
    }
  }

  /** Being a substring is transitive: an occurrence of `u` inside an
      occurrence of `t` inside `s` is an occurrence of `u` in `s`. */
  lemma ContainsTransitive(s: string, t: string, u: string)
    requires Contains(s, t) && Contains(t, u)
    ensures Contains(s, u)
  {
    ContainsOccurs(s, t);
    ContainsOccurs(t, u);
    var i: nat :| OccursAt(s, t, i);
    var j: nat :| OccursAt(t, u, j);
    assert i + j + |u| <= |s|;
    forall k | 0 <= k < |u|
      ensures s[i + j..i + j + |u|][k] == u[k]
    {
      assert u[k] == t[j + k] == s[i..i + |t|][j + k];
    }
    assert OccursAt(s, u, i + j);
    ContainsOccurs(s, u);
  }

  // ---------------------------------------------------------------------------
  // Lower-casing (`s.lower()`)
  // ---------------------------------------------------------------------------

  /** Lower-cases one character; only the ASCII letters `A`..`Z` change. */
  function LowerChar(c: char): (d: char)
  {
    if 'A' <= c <= 'Z' then (c as int + 32) as char else c
  }

  function Lower(s: string): (r: string)
    ensures |r| == |s|
    ensures forall k :: 0 <= k < |s| ==> r[k] == LowerChar(s[k])
  {
    if s == [] then [] else [LowerChar(s[0])] + Lower(s[1..])
  }

  /** Lower-casing maps every occurrence of `t` in `s` onto an occurrence of
      the lower-cased `t` in the lower-cased `s`, at the same index. */
  lemma LowerKeepsOccurrence(s: string, t: string, i: nat)
    requires OccursAt(s, t, i)
    ensures OccursAt(Lower(s), Lower(t), i)
  {
    var ls, lt := Lower(s), Lower(t);
    forall k | 0 <= k < |t|
      ensures ls[i..i + |t|][k] == lt[k]
    {
      assert s[i + k] == s[i..i + |t|][k];
    }
  }

  lemma LowerKeepsContains(s: string, t: string)
    requires Contains(s, t)
    ensures Contains(Lower(s), Lower(t))
  {
    ContainsOccurs(s, t);
    ContainsOccurs(Lower(s), Lower(t));
    var i: nat :| OccursAt(s, t, i);
    LowerKeepsOccurrence(s, t, i);
  }

  /** Lower-casing twice is lower-casing once. */
  lemma LowerIdempotent(s: string)
    ensures Lower(Lower(s)) == Lower(s)
  {
    var l := Lower(s);
    forall k | 0 <= k < |s|
      ensures Lower(l)[k] == l[k]
    {
    }
  }

  // ---------------------------------------------------------------------------
  // Splitting on a separator (`s.split(sep)`)
  // ---------------------------------------------------------------------------

  /** Python's `s.split(sep)` for a non-empty separator: the pieces between
      the successive leftmost, non-overlapping occurrences of `sep`. */
  function Split(s: string, sep: string): (pieces: seq<string>)
    requires sep != []
    ensures |pieces| >= 1
    decreases |s|
  {
    match IndexOf(s, sep)
    case None => [s]
    case Some(i) => [s[..i]] + Split(s[i + |sep|..], sep)
  }

  /** A split yields more than one piece exactly when the separator occurs. */
  lemma SplitMany(s: string, sep: string)
    requires sep != []
    ensures |Split(s, sep)| > 1 <==> Contains(s, sep)
  {
    match IndexOf(s, sep)
    case None =>
    case Some(i) =>
      assert Split(s, sep) == [s[..i]] + Split(s[i + |sep|..], sep);
  }

  /** No piece of a split contains the separator. */
  lemma {:induction false} SplitPiecesFree(s: string, sep: string)
    requires sep != []
    ensures forall k :: 0 <= k < |Split(s, sep)| ==> !Contains(Split(s, sep)[k], sep)
    decreases |s|
  {
    var pieces := Split(s, sep);
    match IndexOf(s, sep)
    case None =>
    case Some(i) =>
      var rest := s[i + |sep|..];
      assert pieces == [s[..i]] + Split(rest, sep);
      SplitPiecesFree(rest, sep);
      BeforeFirstFree(s, sep);
      forall k | 0 <= k < |pieces|
        ensures !Contains(pieces[k], sep)
      {
        if k > 0 {
          assert pieces[k] == Split(rest, sep)[k - 1];
        }
      }
  }

  /** The text before the first occurrence of `sep` holds no `sep`. */
  lemma BeforeFirstFree(s: string, sep: string)
    requires sep != [] && IndexOf(s, sep).Some?
    ensures !Contains(s[..IndexOf(s, sep).value], sep)
  {
    var i := IndexOf(s, sep).value;
    var before := s[..i];
    forall j: nat | j + |sep| <= |before|
      ensures !OccursAt(before, sep, j)
    {
      assert before[j..j + |sep|] == s[j..j + |sep|];
      IndexOfLeftmost(s, sep, j);
    }
    ContainsOccurs(before, sep);
  }

  /** Python's `sep.join(pieces)`. */
  function Join(pieces: seq<string>, sep: string): string
    requires |pieces| >= 1
  {
    if |pieces| == 1 then pieces[0] else pieces[0] + sep + Join(pieces[1..], sep)
  }

  /** Joining the pieces of a split with its separator gives back the string. */
  lemma {:induction false} JoinSplit(s: string, sep: string)
    requires sep != []
    ensures Join(Split(s, sep), sep) == s
    decreases |s|
  {
    var pieces := Split(s, sep);
    if IndexOf(s, sep).Some? {
      var i := IndexOf(s, sep).value;
      var rest := s[i + |sep|..];
      assert pieces == [s[..i]] + Split(rest, sep);
      JoinSplit(rest, sep);
      assert |pieces| > 1;
      assert pieces[1..] == Split(rest, sep);
      assert s == s[..i] + sep + rest;
    }
  }

  /** When `sep` occurs in `s`, `s.split(sep)[1]` is the text after the first
      occurrence of `sep`, running up to the next occurrence or to the end. */
  lemma SecondPiece(s: string, sep: string)
    requires sep != [] && Contains(s, sep)
    ensures var pieces := Split(s, sep);
      var end := |pieces[0]| + |sep| + |pieces[1]|;
      && |pieces| >= 2
      && IndexOf(s, sep) == Some(|pieces[0]|)
      && !Contains(pieces[1], sep)
      && end <= |s| && s[..end] == pieces[0] + sep + pieces[1]
      && (|pieces| == 2 ==> end == |s|)
      && (|pieces| > 2 ==> OccursAt(s, sep, end))
  {
    var i := IndexOf(s, sep).value;
    var rest := s[i + |sep|..];
    var tail := Split(rest, sep);
    SplitShape(s, sep);
    FirstPieceFree(rest, sep);
    FirstPiece(rest, sep);
    PieceAfterSeparator(s, sep, i, tail[0], |tail| > 1);
  }

  /** `p` is the text of `s` from `start` up to the next occurrence of
      `sep` or to the end: it is there, holds no `sep`, no occurrence of
      `sep` in `s` starts inside it, and it is followed by `sep` or by
      nothing. */
  predicate SegmentAt(s: string, sep: string, start: nat, p: string)
  {
    && start + |p| <= |s| && s[start..start + |p|] == p
    && !Contains(p, sep)
    && (forall j :: start <= j < start + |p| ==> !OccursAt(s, sep, j))
    && (start + |p| == |s| || OccursAt(s, sep, start + |p|))
  }

  /** At most one segment starts at a given position, for every separator,
      even one that overlaps itself. */
  lemma SegmentUnique(s: string, sep: string, start: nat, p: string, q: string)
    requires SegmentAt(s, sep, start, p) && SegmentAt(s, sep, start, q)
    ensures p == q
  {
  }

  /** The same, as a slice: the second piece is the segment right after the
      first occurrence of `sep`. */
  lemma SecondPieceSegment(s: string, sep: string)
    requires sep != [] && Contains(s, sep)
    ensures SegmentAt(s, sep, IndexOf(s, sep).value + |sep|, Split(s, sep)[1])
  {
    SecondPiece(s, sep);
    SecondPieceSlice(s, sep);
    SecondPieceLeftmost(s, sep);
  }

  /** The second piece is the slice of `s` right after the first `sep`. */
  lemma SecondPieceSlice(s: string, sep: string)
    requires sep != [] && Contains(s, sep)
    ensures var pieces := Split(s, sep);
      var start := IndexOf(s, sep).value + |sep|;
      && |pieces| > 1
      && start + |pieces[1]| <= |s| && s[start..start + |pieces[1]|] == pieces[1]
  {
    SecondPiece(s, sep);
    var pieces := Split(s, sep);
    var p := pieces[1];
    var start := |pieces[0]| + |sep|;
    var end := start + |p|;
    forall k | 0 <= k < |p|
      ensures s[start..end][k] == p[k]
    {
      assert s[start + k] == s[..end][start + k] == (pieces[0] + sep + p)[start + k];
    }
  }

  /** No occurrence of `sep` starts inside the second piece of a split. */
  lemma SecondPieceLeftmost(s: string, sep: string)
    requires sep != [] && Contains(s, sep)
    ensures var start := IndexOf(s, sep).value + |sep|;
      && |Split(s, sep)| > 1
      && forall j :: start <= j < start + |Split(s, sep)[1]| ==> !OccursAt(s, sep, j)
  {
    var start := IndexOf(s, sep).value + |sep|;
    SplitMany(s, sep);
    SplitShape(s, sep);
    var p := Split(s, sep)[1];
    FirstPieceLeftmost(s[start..], sep);
    forall j | start <= j < start + |p|
      ensures !OccursAt(s, sep, j)
    {
      if OccursAt(s, sep, j) {
        OccursShift(s, sep, start, j);
      }
    }
  }

  /** No occurrence of `sep` starts inside the first piece of a split. */
  lemma FirstPieceLeftmost(s: string, sep: string)
    requires sep != []
    ensures forall j :: 0 <= j < |Split(s, sep)[0]| ==> !OccursAt(s, sep, j)
  {
    if IndexOf(s, sep).Some? {
      SplitUnfold(s, sep);
    }
    forall j | 0 <= j < |Split(s, sep)[0]|
      ensures !OccursAt(s, sep, j)
    {
      IndexOfLeftmost(s, sep, j);
    }
  }

  /** An occurrence at or after `start` is an occurrence in `s[start..]`. */
  lemma OccursShift(s: string, sep: string, start: nat, j: nat)
    requires start <= j && OccursAt(s, sep, j)
    ensures OccursAt(s[start..], sep, j - start)
  {
    assert s[start..][j - start..j - start + |sep|] == s[j..j + |sep|];
  }

  lemma SplitShape(s: string, sep: string)
    requires sep != [] && IndexOf(s, sep).Some?
    ensures var i := IndexOf(s, sep).value;
      var pieces, tail := Split(s, sep), Split(s[i + |sep|..], sep);
      |pieces| == 1 + |tail| && pieces[0] == s[..i] && pieces[1] == tail[0]
  {
    SplitUnfold(s, sep);
  }

  lemma FirstPieceFree(s: string, sep: string)
    requires sep != []
    ensures !Contains(Split(s, sep)[0], sep)
  {
    SplitPiecesFree(s, sep);
  }

  /** The first piece of a split is the text before the first separator, or
      the whole string when there is none. */
  lemma FirstPiece(s: string, sep: string)
    requires sep != []
    ensures var pieces := Split(s, sep);
      && |pieces[0]| <= |s| && s[..|pieces[0]|] == pieces[0]
      && (|pieces| > 1 ==> OccursAt(s, sep, |pieces[0]|))
      && (|pieces| == 1 ==> pieces[0] == s)
  {
    if IndexOf(s, sep).Some? {
      SplitUnfold(s, sep);
    }
  }

  lemma PieceAfterSeparator(s: string, sep: string, i: nat, p: string, more: bool)
    requires OccursAt(s, sep, i)
    requires var rest := s[i + |sep|..];
      && |p| <= |rest| && rest[..|p|] == p
      && (more ==> OccursAt(rest, sep, |p|))
      && (!more ==> rest == p)
    ensures var end := i + |sep| + |p|;
      && end <= |s| && s[..end] == s[..i] + sep + p
      && (!more ==> end == |s|)
      && (more ==> OccursAt(s, sep, end))
  {
    var rest := s[i + |sep|..];
    var end := i + |sep| + |p|;
    assert s[..end] == s[..i] + s[i..i + |sep|] + rest[..|p|];
    if more {
      assert s[end..end + |sep|] == rest[|p|..|p| + |sep|];
    }
  }

  lemma SplitUnfold(s: string, sep: string)
    requires sep != [] && IndexOf(s, sep).Some?
    ensures var i := IndexOf(s, sep).value;
      Split(s, sep) == [s[..i]] + Split(s[i + |sep|..], sep)
  {
  }

  // ---------------------------------------------------------------------------
  // Stripping white space (`s.strip()`)
  // ---------------------------------------------------------------------------

  /** Python's `str.isspace` for one character: the tab, line feed, vertical
      tab, form feed, carriage return, the four information separators, the
      space, NEL, no-break space and the Unicode space separators and line and
      paragraph separators. */
  predicate IsSpace(c: char)
  {
    var n := c as int;
    || n == 0x20
    || 0x09 <= n <= 0x0D
    || 0x1C <= n <= 0x1F
    || n == 0x85
    || n == 0xA0
    || n == 0x1680
    || 0x2000 <= n <= 0x200A
    || n == 0x2028
    || n == 0x2029
    || n == 0x202F
    || n == 0x205F
    || n == 0x3000
  }

  /** Every character of `s` satisfies `p`. */
  predicate All(s: string, p: char -> bool)
  {
    forall k :: 0 <= k < |s| ==> p(s[k])
  }

  predicate AllSpace(s: string)
  {
    All(s, IsSpace)
  }

  /** `s` without its leading characters that satisfy `p`. */
  function TrimLeft(s: string, p: char -> bool): (r: string)
    ensures |r| <= |s|
    ensures r == [] || !p(r[0])
  {
    if s != [] && p(s[0]) then TrimLeft(s[1..], p) else s
  }

  /** `TrimLeft` keeps a suffix and drops only characters satisfying `p`. */
  lemma {:induction false} TrimLeftDrops(s: string, p: char -> bool)
    ensures var r := TrimLeft(s, p); r == s[|s| - |r|..] && All(s[..|s| - |r|], p)
    decreases |s|
  {
    if s != [] && p(s[0]) {
      var t := s[1..];
      TrimLeftDrops(t, p);
      var r := TrimLeft(t, p);
      assert t[|t| - |r|..] == s[|s| - |r|..];
      forall k | 0 <= k < |s| - |r|
        ensures p(s[k])
      {
        if k > 0 {
          assert s[k] == t[..|t| - |r|][k - 1];
        }
      }
    } else {
      assert s[|s| - |s|..] == s;
    }
  }

  /** `s` without its trailing characters that satisfy `p`. */
  function TrimRight(s: string, p: char -> bool): (r: string)
    ensures |r| <= |s|
    ensures r == [] || !p(r[|r| - 1])
  {
    if s != [] && p(s[|s| - 1]) then TrimRight(s[..|s| - 1], p) else s
  }

  /** `TrimRight` keeps a prefix and drops only characters satisfying `p`. */
  lemma {:induction false} TrimRightDrops(s: string, p: char -> bool)
    ensures var r := TrimRight(s, p); r == s[..|r|] && All(s[|r|..], p)
    decreases |s|
  {
    if s != [] && p(s[|s| - 1]) {
      var t := s[..|s| - 1];
      TrimRightDrops(t, p);
      var r := TrimRight(t, p);
      assert t[..|r|] == s[..|r|];
      forall k | |r| <= k < |s|
        ensures p(s[k])
      {
        if k < |t| {
          assert s[k] == t[|r|..][k - |r|];
        }
      }
    } else {
      assert s[..|s|] == s;
    }
  }

  /** Trimming both ends keeps a slice of `s` and drops only characters
      satisfying `p` on either side of it. */
  lemma TrimSlice(s: string, p: char -> bool)
    ensures var i, r := |s| - |TrimLeft(s, p)|, TrimRight(TrimLeft(s, p), p);
      && i + |r| <= |s| && r == s[i..i + |r|]
      && All(s[..i], p) && All(s[i + |r|..], p)
  {
    var l := TrimLeft(s, p);
    var r := TrimRight(l, p);
    var i := |s| - |l|;
    TrimLeftDrops(s, p);
    TrimRightDrops(l, p);
    assert l == s[i..];
    assert r == l[..|r|];
    assert s[i..][..|r|] == s[i..i + |r|];
    forall k | i + |r| <= k < |s|
      ensures p(s[k])
    {
      assert s[k] == l[k - i] == l[|r|..][k - i - |r|];
    }
  }

  lemma {:induction false} TrimLeftPadded(a: string, y: string, p: char -> bool)
    requires All(a, p) && (y == [] || !p(y[0]))
    ensures TrimLeft(a + y, p) == y
    decreases |a|
  {
    if a != [] {
      assert (a + y)[1..] == a[1..] + y;
      TrimLeftPadded(a[1..], y, p);
    }
  }

  lemma {:induction false} TrimRightPadded(y: string, b: string, p: char -> bool)
    requires All(b, p) && (y == [] || !p(y[|y| - 1]))
    ensures TrimRight(y + b, p) == y
    decreases |b|
  {
    if b != [] {
      assert (y + b)[..|y + b| - 1] == y + b[..|b| - 1];
      TrimRightPadded(y, b[..|b| - 1], p);
    }
  }

  /** Python's `s.strip()`: `s` without its leading and trailing white space. */
  function Strip(s: string): (r: string)
    ensures |r| <= |s|
    ensures r == [] || (!IsSpace(r[0]) && !IsSpace(r[|r| - 1]))
  {
    var l := TrimLeft(s, IsSpace);
    TrimRightDrops(l, IsSpace);
    TrimRight(l, IsSpace)
  }

  /** What `Strip` removes is white space: the result is the slice of `s`
      that follows the leading white space, and all of `s` before and after
      that slice is white space. */
  lemma StripSlice(s: string)
    ensures var i, r := |s| - |TrimLeft(s, IsSpace)|, Strip(s);
      && i + |r| <= |s| && r == s[i..i + |r|]
      && AllSpace(s[..i]) && AllSpace(s[i + |r|..])
  {
    TrimSlice(s, IsSpace);
  }

  /** Stripping undoes any white-space padding around a string that has no
      white space at either end; with the contract of `Strip` this pins the
      result down exactly. */
  lemma StripPadded(a: string, x: string, b: string)
    requires AllSpace(a) && AllSpace(b)
    requires x == [] || (!IsSpace(x[0]) && !IsSpace(x[|x| - 1]))
    ensures Strip(a + x + b) == x
  {
    if x == [] {
      assert a + x + b == (a + b) + [];
      TrimLeftPadded(a + b, [], IsSpace);
    } else {
      assert a + x + b == a + (x + b);
      TrimLeftPadded(a, x + b, IsSpace);
      TrimRightPadded(x, b, IsSpace);
    }
  }
}
