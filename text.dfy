/**
 * The Python string operations the application's core relies on, with the
 * meaning CPython gives them: `s.strip()`, `sep in s`, `s.split(sep)` and
 * `s.startswith(prefix)`. `sep.join(parts)` is not called by the application;
 * it is here as the inverse that states what a split keeps. Strings are
 * sequences of Unicode code points, as Python `str` values are.
 */
module Text {
  import opened Wrappers

  /** The code points for which `str.isspace()` holds; `str.strip()` removes exactly these. */
  predicate IsSpace(c: char) {
    || c == ' '
    || ('\t' <= c <= '\r')
    || ('\U{1C}' <= c <= '\U{1F}')
    || c == '\U{85}' || c == '\U{A0}' || c == '\U{1680}'
    || ('\U{2000}' <= c <= '\U{200A}')
    || c == '\U{2028}' || c == '\U{2029}' || c == '\U{202F}' || c == '\U{205F}' || c == '\U{3000}'
  }

  predicate AllSpace(s: string) {
    forall k :: 0 <= k < |s| ==> IsSpace(s[k])
  }

  /** Neither the first nor the last code point is whitespace: `s.strip() == s`. */
  predicate IsStripped(s: string) {
    s == [] || (!IsSpace(s[0]) && !IsSpace(s[|s| - 1]))
  }

  /** `s.lstrip()`. */
  function TrimStart(s: string): string
    decreases |s|
  {
    if s != [] && IsSpace(s[0]) then TrimStart(s[1..]) else s
  }

  /** `s.rstrip()`. */
  function TrimEnd(s: string): string
    decreases |s|
  {
    if s != [] && IsSpace(s[|s| - 1]) then TrimEnd(s[..|s| - 1]) else s
  }

  /** `s.lstrip()` drops exactly the longest whitespace prefix. */
  lemma {:induction false} TrimStartDropsLeadingSpace(s: string)
    ensures var r := TrimStart(s);
      && |r| <= |s| && r == s[|s| - |r|..]
      && AllSpace(s[..|s| - |r|])
      && (r == [] || !IsSpace(r[0]))
    decreases |s|
  {
    if s != [] && IsSpace(s[0]) {
      TrimStartDropsLeadingSpace(s[1..]);
      var r := TrimStart(s[1..]);
      assert s[..|s| - |r|] == [s[0]] + s[1..][..|s| - 1 - |r|];
    }
  }

  /** `s.rstrip()` drops exactly the longest whitespace suffix. */
  lemma {:induction false} TrimEndDropsTrailingSpace(s: string)
    ensures var r := TrimEnd(s);
      && |r| <= |s| && r == s[..|r|]
      && AllSpace(s[|r|..])
      && (r == [] || !IsSpace(r[|r| - 1]))
    decreases |s|
  {
    if s != [] && IsSpace(s[|s| - 1]) {
      TrimEndDropsTrailingSpace(s[..|s| - 1]);
      var r := TrimEnd(s[..|s| - 1]);
      assert s[|r|..] == s[..|s| - 1][|r|..] + [s[|s| - 1]];
    }
  }

  /**
   * `s.strip()`: what it leaves has no surrounding whitespace, is no longer
   * than `s`, and is empty exactly when `s` is all whitespace.
   */
  function Strip(s: string): (r: string)
    ensures IsStripped(r) && |r| <= |s|
    ensures r == [] <==> AllSpace(s)
  {
    TrimStartDropsLeadingSpace(s);
    TrimEndDropsTrailingSpace(TrimStart(s));
    TrimEnd(TrimStart(s))
  }

  lemma {:induction false} TrimStartPadded(pad: string, t: string)
    requires AllSpace(pad)
    requires t == [] || !IsSpace(t[0])
    ensures TrimStart(pad + t) == t
    decreases |pad|
  {
    if pad == [] {
      assert pad + t == t;
    } else {
      assert (pad + t)[1..] == pad[1..] + t;
      TrimStartPadded(pad[1..], t);
    }
  }

  lemma {:induction false} TrimEndPadded(t: string, pad: string)
    requires AllSpace(pad)
    requires t == [] || !IsSpace(t[|t| - 1])
    ensures TrimEnd(t + pad) == t
    decreases |pad|
  {
    if pad == [] {
      assert t + pad == t;
    } else {
      assert (t + pad)[..|t + pad| - 1] == t + pad[..|pad| - 1];
      TrimEndPadded(t, pad[..|pad| - 1]);
    }
  }

  /** Stripping undoes any whitespace padding around an already stripped string. */
  lemma StripPadded(pre: string, s: string, post: string)
    requires AllSpace(pre) && AllSpace(post) && IsStripped(s)
    ensures Strip(pre + s + post) == s
  {
    if s == [] {
      assert pre + s + post == (pre + post) + [];
      TrimStartPadded(pre + post, []);
    } else {
      assert pre + s + post == pre + (s + post);
      TrimStartPadded(pre, s + post);
      TrimEndPadded(s, post);
    }
  }

  /** Positions listed in strictly increasing order. */
  predicate Increasing(idx: seq<nat>) {
    forall k, l :: 0 <= k < l < |idx| ==> idx[k] < idx[l]
  }

  /** `sep` occurs in `s` starting at position `i`. */
  predicate OccursAt(s: string, sep: string, i: int) {
    0 <= i && i + |sep| <= |s| && s[i..i + |sep|] == sep
  }

  lemma ShiftOccurrence(s: string, sep: string)
    requires s != []
    ensures forall j :: OccursAt(s[1..], sep, j) ==> OccursAt(s, sep, j + 1)
    ensures forall j :: 1 <= j && OccursAt(s, sep, j) ==> OccursAt(s[1..], sep, j - 1)
  {
    forall j | OccursAt(s[1..], sep, j) ensures OccursAt(s, sep, j + 1) {
      assert s[1..][j..j + |sep|] == s[j + 1..j + 1 + |sep|];
    }
    forall j | 1 <= j && OccursAt(s, sep, j) ensures OccursAt(s[1..], sep, j - 1) {
      assert s[1..][j - 1..j - 1 + |sep|] == s[j..j + |sep|];
    }
  }

  /** `s.find(sep)`: the first position at which `sep` occurs in `s`, if any. */
  function IndexOf(s: string, sep: string): (r: Option<nat>)
    requires sep != []
    ensures r.Some? ==> OccursAt(s, sep, r.value)
    ensures r.Some? ==> forall j :: 0 <= j < r.value ==> !OccursAt(s, sep, j)
    ensures r.None? ==> forall j :: !OccursAt(s, sep, j)
    decreases |s|
  {
    if |s| < |sep| then None
    else if s[..|sep|] == sep then Some(0)
    else
      ShiftOccurrence(s, sep);
      match IndexOf(s[1..], sep)
      case None => None
      case Some(i) => Some(i + 1)
  }

  /** Python's `sep in s`. */
  predicate Contains(s: string, sep: string)
    requires sep != []
    ensures Contains(s, sep) ==> |sep| <= |s|
  {
    IndexOf(s, sep).Some?
  }

  /** `s.startswith(prefix)`. */
  predicate StartsWith(s: string, prefix: string)
    ensures StartsWith(s, prefix) <==> |prefix| <= |s| && s == prefix + s[|prefix|..]
  {
    |prefix| <= |s| && s[..|prefix|] == prefix
  }

  /** An occurrence inside a slice is an occurrence in the whole string. */
  lemma SliceOccurs(s: string, a: int, b: int, sep: string)
    requires 0 <= a <= b <= |s|
    ensures forall j :: OccursAt(s[a..b], sep, j) ==> OccursAt(s, sep, a + j)
  {
    forall j | OccursAt(s[a..b], sep, j) ensures OccursAt(s, sep, a + j) {
      var inner, outer := s[a..b][j..j + |sep|], s[a + j..a + j + |sep|];
      forall k | 0 <= k < |sep| ensures inner[k] == outer[k] {}
      assert inner == outer;
    }
  }

  lemma SliceLacks(s: string, a: int, b: int, sep: string)
    requires sep != [] && 0 <= a <= b <= |s|
    requires !Contains(s, sep)
    ensures !Contains(s[a..b], sep)
  {
    SliceOccurs(s, a, b, sep);
  }

  /**
   * `s.split(sep)`: the pieces of `s` between the occurrences of `sep` found
   * left to right without overlap; always at least one piece, and no piece
   * contains `sep`.
   */
  function Split(s: string, sep: string): (parts: seq<string>)
    requires sep != []
    ensures |parts| >= 1
    ensures |parts| == 1 <==> !Contains(s, sep)
    ensures !Contains(s, sep) ==> parts == [s]
    ensures forall k :: 0 <= k < |parts| ==> !Contains(parts[k], sep)
    decreases |s|
  {
    match IndexOf(s, sep)
    case None => [s]
    case Some(i) =>
      assert !Contains(s[..i], sep) by {
        SliceOccurs(s, 0, i, sep);
        assert s[0..i] == s[..i];
      }
      [s[..i]] + Split(s[i + |sep|..], sep)
  }

  /** `sep.join(parts)`. */
  function Join(parts: seq<string>, sep: string): string
    decreases |parts|
  {
    if parts == [] then []
    else if |parts| == 1 then parts[0]
    else parts[0] + sep + Join(parts[1..], sep)
  }

  /** Joining the pieces of a split with the same separator gives back the original string. */
  lemma {:induction false} JoinSplit(s: string, sep: string)
    requires sep != []
    ensures Join(Split(s, sep), sep) == s
    decreases |s|
  {
    var r := IndexOf(s, sep);
    if r.Some? {
      var i := r.value;
      var rest := s[i + |sep|..];
      var parts := Split(rest, sep);
      assert Split(s, sep) == [s[..i]] + parts;
      JoinSplit(rest, sep);
      JoinCons(s[..i], parts, sep);
      Around(s, i, |sep|);
    }
  }

  lemma Around(s: string, i: nat, n: nat)
    requires i + n <= |s|
    ensures s == s[..i] + s[i..i + n] + s[i + n..]
  {
  }

  lemma JoinCons(head: string, parts: seq<string>, sep: string)
    requires parts != []
    ensures Join([head] + parts, sep) == head + sep + Join(parts, sep)
  {
    assert ([head] + parts)[1..] == parts;
  }

  /** A two-character marker whose characters differ, such as "Q:" or "A:": two occurrences never overlap. */
  predicate Marker(sep: string) {
    |sep| == 2 && sep[0] != sep[1]
  }

  /** Every position at which `sep` occurs in `s`, overlapping or not. */
  function Occurrences(s: string, sep: string): nat
    requires sep != []
    decreases |s|
  {
    if |s| < |sep| then 0
    else (if s[..|sep|] == sep then 1 else 0) + Occurrences(s[1..], sep)
  }

  lemma {:induction false} OccurrencesSkip(s: string, sep: string, k: nat)
    requires sep != [] && k <= |s|
    requires forall j :: 0 <= j < k ==> !OccursAt(s, sep, j)
    ensures Occurrences(s, sep) == Occurrences(s[k..], sep)
    decreases k
  {
    if k == 0 {
      assert s[k..] == s;
    } else if |s| < |sep| {
      assert Occurrences(s[k..], sep) == 0;
    } else {
      assert !OccursAt(s, sep, 0);
      assert s[0..|sep|] == s[..|sep|];
      ShiftOccurrence(s, sep);
      OccurrencesSkip(s[1..], sep, k - 1);
      assert s[1..][k - 1..] == s[k..];
    }
  }

  /** Splitting on a marker yields one piece more than the marker has occurrences. */
  lemma {:induction false} SplitCountsOccurrences(s: string, sep: string)
    requires Marker(sep)
    ensures |Split(s, sep)| == Occurrences(s, sep) + 1
    decreases |s|
  {
    match IndexOf(s, sep)
    case None =>
      OccurrencesNone(s, sep);
    case Some(i) =>
      OccurrencesSkip(s, sep, i);
      var t := s[i..];
      assert t[..2] == sep by { assert s[i..i + 2] == sep; }
      assert Occurrences(t, sep) == 1 + Occurrences(t[1..], sep);
      var u := t[1..];
      assert u[0] == sep[1];
      assert !OccursAt(u, sep, 0);
      OccurrencesSkip(u, sep, 1);
      assert u[1..] == s[i + 2..];
      SplitCountsOccurrences(s[i + 2..], sep);
  }

  lemma {:induction false} OccurrencesNone(s: string, sep: string)
    requires sep != []
    requires forall j :: !OccursAt(s, sep, j)
    ensures Occurrences(s, sep) == 0
    decreases |s|
  {
    if |s| >= |sep| {
      assert !OccursAt(s, sep, 0);
      assert s[0..|sep|] == s[..|sep|];
      ShiftOccurrence(s, sep);
      OccurrencesNone(s[1..], sep);
    }
  }

  /** When `x` lacks the marker, the first occurrence in `x + sep + y` is the one right after `x`. */
  lemma FirstOccurrenceAfter(x: string, sep: string, y: string)
    requires Marker(sep) && !Contains(x, sep)
    ensures IndexOf(x + sep + y, sep) == Some(|x|)
  {
    var s := x + sep + y;
    assert s[|x|..|x| + 2] == sep;
    assert OccursAt(s, sep, |x|);
    forall j | 0 <= j < |x| ensures !OccursAt(s, sep, j) {
      if j + 2 <= |x| {
        assert s[j..j + 2] == x[j..j + 2];
        assert !OccursAt(x, sep, j);
      } else {
        assert s[j + 1] == sep[0];
      }
    }
  }

  /** A one-character separator occurs exactly where that character stands. */
  lemma OccursAtChar(s: string, c: char, j: int)
    ensures OccursAt(s, [c], j) <==> 0 <= j < |s| && s[j] == c
  {
    if 0 <= j < |s| {
      assert s[j..j + 1] == [s[j]];
    }
  }

  /** For a one-character separator, Python's `sep in s` is character membership. */
  lemma ContainsChar(s: string, c: char)
    ensures Contains(s, [c]) <==> c in s
  {
    if c in s {
      var j :| 0 <= j < |s| && s[j] == c;
      OccursAtChar(s, c, j);
    }
    forall j | OccursAt(s, [c], j) ensures c in s {
      OccursAtChar(s, c, j);
    }
  }

  /** Extending a string at its end keeps its first occurrence of a character. */
  lemma {:induction false} IndexOfExtend(x: string, z: string, c: char)
    requires IndexOf(x, [c]).Some?
    ensures IndexOf(x + z, [c]) == IndexOf(x, [c])
    decreases |x|
  {
    assert |x| >= 1;
    assert (x + z)[..1] == x[..1];
    if x[..1] != [c] {
      assert (x + z)[1..] == x[1..] + z;
      IndexOfExtend(x[1..], z, c);
    }
  }

  /** The first occurrence of a character absent from `x` in `x + [c] + y` is right after `x`. */
  lemma IndexOfAfterChar(x: string, c: char, y: string)
    requires !Contains(x, [c])
    ensures IndexOf(x + [c] + y, [c]) == Some(|x|)
  {
    var s := x + [c] + y;
    OccursAtChar(s, c, |x|);
    forall j | 0 <= j < |x| ensures !OccursAt(s, [c], j) {
      OccursAtChar(x, c, j);
      OccursAtChar(s, c, j);
    }
  }

  /** Splitting on a single character distributes over a concatenation around that character. */
  lemma {:induction false} SplitCharConcat(x: string, c: char, y: string)
    ensures Split(x + [c] + y, [c]) == Split(x, [c]) + Split(y, [c])
    decreases |x|
  {
    var s := x + [c] + y;
    if Contains(x, [c]) {
      var i := IndexOf(x, [c]).value;
      IndexOfExtend(x, [c] + y, c);
      assert s == x + ([c] + y);
      assert s[..i] == x[..i];
      assert s[i + 1..] == x[i + 1..] + [c] + y;
      SplitCharConcat(x[i + 1..], c, y);
    } else {
      IndexOfAfterChar(x, c, y);
      assert s[..|x|] == x && s[|x| + 1..] == y;
    }
  }

  /** Splitting the join of marker-free pieces gives back the pieces: the inverse of JoinSplit. */
  lemma {:induction false} SplitJoin(parts: seq<string>, sep: string)
    requires Marker(sep) && parts != []
    requires forall k :: 0 <= k < |parts| ==> !Contains(parts[k], sep)
    ensures Split(Join(parts, sep), sep) == parts
    decreases |parts|
  {
    if |parts| > 1 {
      var rest := Join(parts[1..], sep);
      var s := parts[0] + sep + rest;
      FirstOccurrenceAfter(parts[0], sep, rest);
      assert s[..|parts[0]|] == parts[0];
      assert s[|parts[0]| + 2..] == rest;
      SplitJoin(parts[1..], sep);
    }
  }

  /** A string can only contain the marker if it contains the marker's first character. */
  lemma LacksLead(t: string, sep: string)
    requires sep != []
    ensures Contains(t, sep) ==> sep[0] in t
  {
    forall j | OccursAt(t, sep, j) ensures t[j] == sep[0] {
      assert t[j..j + |sep|][0] == t[j];
    }
  }

  /** An occurrence in `x + y` lies in `x`, lies in `y`, or straddles the seam. */
  lemma ConcatOccurs(x: string, y: string, sep: string)
    requires Marker(sep)
    ensures forall j :: OccursAt(x + y, sep, j) ==>
      || OccursAt(x, sep, j)
      || OccursAt(y, sep, j - |x|)
      || (j == |x| - 1 && x[|x| - 1] == sep[0] && y[0] == sep[1])
  {
    var s := x + y;
    forall j | OccursAt(s, sep, j)
      ensures || OccursAt(x, sep, j)
              || OccursAt(y, sep, j - |x|)
              || (j == |x| - 1 && x[|x| - 1] == sep[0] && y[0] == sep[1])
    {
      if j + 2 <= |x| {
        assert s[j..j + 2] == x[j..j + 2];
      } else if j >= |x| {
        assert s[j..j + 2] == y[j - |x|..j - |x| + 2];
      } else {
        assert s[j..j + 2][0] == x[|x| - 1] && s[j..j + 2][1] == y[0];
      }
    }
  }

  /** Gluing two marker-free strings creates no marker unless one straddles the seam. */
  lemma ConcatLacks(x: string, y: string, sep: string)
    requires Marker(sep) && !Contains(x, sep) && !Contains(y, sep)
    requires x == [] || y == [] || x[|x| - 1] != sep[0] || y[0] != sep[1]
    ensures !Contains(x + y, sep)
  {
    ConcatOccurs(x, y, sep);
  }

  /** The pieces of a split never contain a pattern that the whole string lacks. */
  lemma {:induction false} SplitPartsLack(s: string, sep: string, pattern: string)
    requires sep != [] && pattern != []
    requires !Contains(s, pattern)
    ensures forall k :: 0 <= k < |Split(s, sep)| ==> !Contains(Split(s, sep)[k], pattern)
    decreases |s|
  {
    match IndexOf(s, sep)
    case None =>
    case Some(i) =>
      SliceLacks(s, 0, i, pattern);
      assert s[0..i] == s[..i];
      SliceLacks(s, i + |sep|, |s|, pattern);
      assert s[i + |sep|..|s|] == s[i + |sep|..];
      SplitPartsLack(s[i + |sep|..], sep, pattern);
  }
}
