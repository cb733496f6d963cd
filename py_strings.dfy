/**
 * The handful of Python `str` (and `bytes`) operations the scripts rely on:
 * `startswith`/`endswith`, `in` on strings, `find`/`rfind`, `strip`,
 * `split(sep)`, `replace(pat, "")`, `lower()` and the ordering `sorted` uses.
 */
module PyStrings {

  /** `s.startswith(p)`, for strings and for byte strings alike. */
  predicate StartsWith<T(==)>(s: seq<T>, p: seq<T>) {
    |p| <= |s| && s[..|p|] == p
  }

  /** `s.endswith(p)`. */
  predicate EndsWith<T(==)>(s: seq<T>, p: seq<T>) {
    |p| <= |s| && s[|s| - |p|..] == p
  }

  /** `sub in s` for strings: `sub` occurs somewhere in `s` as a contiguous block. */
  predicate Contains<T(==)>(s: seq<T>, sub: seq<T>)
    decreases |s|
  {
    StartsWith(s, sub) || (s != [] && Contains(s[1..], sub))
  }

  /** An occurrence at a known offset is an occurrence. */
  lemma {:induction false} ContainsAt<T>(s: seq<T>, sub: seq<T>, i: nat)
    requires i <= |s| && StartsWith(s[i..], sub)
    ensures Contains(s, sub)
  {
    if i > 0 {
      assert s[1..][i - 1..] == s[i..];
      ContainsAt(s[1..], sub, i - 1);
    }
  }

  /** Every occurrence sits at some offset. */
  lemma {:induction false} ContainsHasOffset<T>(s: seq<T>, sub: seq<T>) returns (i: nat)
    requires Contains(s, sub)
    ensures i + |sub| <= |s| && s[i..i + |sub|] == sub
  {
    if StartsWith(s, sub) {
      i := 0;
    } else {
      var k := ContainsHasOffset(s[1..], sub);
      i := k + 1;
      assert s[i..i + |sub|] == s[1..][k..k + |sub|];
    }
  }

  /** A string shorter than `sub` does not contain it. */
  lemma ShorterLacks<T>(s: seq<T>, sub: seq<T>)
    requires |s| < |sub|
    ensures !Contains(s, sub)
  {
    if Contains(s, sub) {
      var i := ContainsHasOffset(s, sub);
    }
  }

  /** An occurrence in a part of a string is an occurrence in the whole string. */
  lemma ContainsInConcat<T>(a: seq<T>, b: seq<T>, c: seq<T>, sub: seq<T>)
    requires Contains(b, sub)
    ensures Contains(a + b + c, sub)
  {
    var k := ContainsHasOffset(b, sub);
    var s := a + b + c;
    assert s[|a| + k..][..|sub|] == b[k..k + |sub|];
    ContainsAt(s, sub, |a| + k);
  }

  /**
   * No occurrence of `w` can start inside `p`: wherever `p` holds the first
   * character of `w`, the next character of `p` differs from the second.
   */
  predicate NoStartIn<T(==)>(p: seq<T>, w: seq<T>)
    requires |w| >= 2
  {
    forall i {:trigger p[i]} :: 0 <= i < |p| ==> p[i] != w[0] || (i + 1 < |p| && p[i + 1] != w[1])
  }

  /** A prefix in which no occurrence can start adds no occurrence. */
  lemma PrefixAddsNoOccurrence<T>(p: seq<T>, s: seq<T>, w: seq<T>)
    requires |w| >= 2 && NoStartIn(p, w)
    requires !Contains(s, w)
    ensures !Contains(p + s, w)
  {
    if Contains(p + s, w) {
      var i := ContainsHasOffset(p + s, w);
      if i >= |p| {
        assert s[i - |p|..][..|w|] == w;
        ContainsAt(s, w, i - |p|);
      } else {
        NoStartAt(p, s, w, i);
      }
      assert false;
    }
  }

  /** No occurrence of `w` starts at a position `i` inside `p`. */
  lemma NoStartAt<T>(p: seq<T>, s: seq<T>, w: seq<T>, i: nat)
    requires |w| >= 2 && NoStartIn(p, w)
    requires i < |p| && i + |w| <= |p + s|
    ensures (p + s)[i..i + |w|] != w
  {
    var q := p + s;
    assert q[i] == p[i];
    if i + 1 < |p| {
      assert q[i + 1] == p[i + 1];
    }
  }

  /** Python slicing `s[i:j]` for `0 <= i <= j`: bounds beyond the end are clamped. */
  function Slice<T>(s: seq<T>, i: nat, j: nat): (r: seq<T>)
    requires i <= j
    ensures |r| <= j - i
    ensures |s| >= j ==> r == s[i..j]
  {
    var lo := if i <= |s| then i else |s|;
    var hi := if j <= |s| then j else |s|;
    s[lo..hi]
  }

  /** `str.find(c)`: the index of the first `c`, or -1. */
  function Find(s: string, c: char): (i: int)
    ensures -1 <= i < |s|
    ensures i == -1 <==> c !in s
    ensures i >= 0 ==> s[i] == c && c !in s[..i]
    decreases |s|
  {
    if s == [] then -1
    else if s[0] == c then 0
    else
      var k := Find(s[1..], c);
      if k == -1 then -1
      else
        assert s[..k + 1] == [s[0]] + s[1..][..k];
        k + 1
  }

  /** `str.rfind(c)`: the index of the last `c`, or -1. */
  function RFind(s: string, c: char): (i: int)
    ensures -1 <= i < |s|
    ensures i == -1 <==> c !in s
    ensures i >= 0 ==> s[i] == c && c !in s[i + 1..]
    decreases |s|
  {
    if s == [] then -1
    else if s[|s| - 1] == c then |s| - 1
    else
      var init := s[..|s| - 1];
      var k := RFind(init, c);
      assert s == init + [s[|s| - 1]];
      if k >= 0 then assert s[k + 1..] == init[k + 1..] + [s[|s| - 1]]; k else k
  }

  /** The first occurrence is at `k` when `c` is at `k` and nowhere before. */
  lemma FindFirst(s: string, c: char, k: nat)
    requires k < |s| && s[k] == c && c !in s[..k]
    ensures Find(s, c) == k
  {
    var f := Find(s, c);
  }

  /** The last occurrence is at `k` when `c` is at `k` and nowhere after. */
  lemma RFindLast(s: string, c: char, k: nat)
    requires k < |s| && s[k] == c && c !in s[k + 1..]
    ensures RFind(s, c) == k
  {
    var l := RFind(s, c);
  }

  // ---------------------------------------------------------------- strip

  /** `str.isspace()` for one character: the characters Python's `strip()` removes. */
  predicate IsSpace(c: char) {
    || '\U{0009}' <= c <= '\U{000D}'
    || '\U{001C}' <= c <= '\U{0020}'
    || c == '\U{0085}' || c == '\U{00A0}' || c == '\U{1680}'
    || '\U{2000}' <= c <= '\U{200A}'
    || c == '\U{2028}' || c == '\U{2029}' || c == '\U{202F}' || c == '\U{205F}'
    || c == '\U{3000}'
  }

  /** The number of whitespace characters at the front of `s`. */
  function LeadingSpaces(s: string): (n: nat)
    ensures n <= |s|
    ensures forall k :: 0 <= k < n ==> IsSpace(s[k])
    ensures n == |s| || !IsSpace(s[n])
    decreases |s|
  {
    if s != [] && IsSpace(s[0]) then 1 + LeadingSpaces(s[1..]) else 0
  }

  /** The number of whitespace characters at the back of `s`. */
  function TrailingSpaces(s: string): (n: nat)
    ensures n <= |s|
    ensures forall k :: |s| - n <= k < |s| ==> IsSpace(s[k])
    ensures n == |s| || !IsSpace(s[|s| - 1 - n])
    decreases |s|
  {
    if s != [] && IsSpace(s[|s| - 1]) then 1 + TrailingSpaces(s[..|s| - 1]) else 0
  }

  /** `str.strip()`: `s` without its leading and trailing whitespace. */
  function Strip(s: string): string {
    var t := s[LeadingSpaces(s)..];
    t[..|t| - TrailingSpaces(t)]
  }

  /**
   * What `strip()` leaves: a contiguous block of `s` after its leading
   * whitespace, everything cut away from the end is whitespace, and the
   * result neither starts nor ends with whitespace.
   */
  lemma StripShape(s: string)
    ensures LeadingSpaces(s) + |Strip(s)| <= |s|
    ensures Strip(s) == s[LeadingSpaces(s)..LeadingSpaces(s) + |Strip(s)|]
    ensures forall k :: LeadingSpaces(s) + |Strip(s)| <= k < |s| ==> IsSpace(s[k])
    ensures Strip(s) == [] || (!IsSpace(Strip(s)[0]) && !IsSpace(Strip(s)[|Strip(s)| - 1]))
  {
  }

  /** Stripping twice is stripping once. */
  lemma StripIdempotent(s: string)
    ensures Strip(Strip(s)) == Strip(s)
  {
    var r := Strip(s);
    StripShape(s);
    assert LeadingSpaces(r) == 0;
    var t := r[LeadingSpaces(r)..];
    assert t == r;
    assert TrailingSpaces(t) == 0;
  }

  /** Neither end of `s` is whitespace. */
  predicate Unpadded(s: string) {
    s == [] || (!IsSpace(s[0]) && !IsSpace(s[|s| - 1]))
  }

  /** Stripping a string without whitespace at its ends changes nothing. */
  lemma StripUnpadded(s: string)
    requires Unpadded(s)
    ensures Strip(s) == s
  {
    assert LeadingSpaces(s) == 0;
    assert s[0..] == s;
  }

  /** A leading whitespace character is stripped away. */
  lemma StripLeadingSpace(c: char, s: string)
    requires IsSpace(c)
    ensures Strip([c] + s) == Strip(s)
  {
    assert ([c] + s)[1..] == s;
    assert LeadingSpaces([c] + s) == 1 + LeadingSpaces(s);
    assert ([c] + s)[1 + LeadingSpaces(s)..] == s[LeadingSpaces(s)..];
  }

  /** A character missing from a string is missing from its strip. */
  lemma StripKeepsAbsence(s: string, c: char)
    requires c !in s
    ensures c !in Strip(s)
  {
    StripShape(s);
    var r := Strip(s);
    var n := LeadingSpaces(s);
    assert forall i :: 0 <= i < |r| ==> r[i] == s[n + i];
  }

  // ---------------------------------------------------------------- split

  /**
   * `s.split(sep)` for a one-character separator: the pieces between separators,
   * empty pieces included, so there is always one more piece than separators.
   */
  function Split(s: string, sep: char): (pieces: seq<string>)
    ensures |pieces| >= 1
    ensures forall i :: 0 <= i < |pieces| ==> sep !in pieces[i]
    decreases |s|
  {
    if s == [] then [""]
    else
      var rest := Split(s[1..], sep);
      if s[0] == sep then [""] + rest
      else [[s[0]] + rest[0]] + rest[1..]
  }

  /** `sep.join(pieces)`. */
  function Join(pieces: seq<string>, sep: char): string
    decreases |pieces|
  {
    if pieces == [] then ""
    else if |pieces| == 1 then pieces[0]
    else pieces[0] + [sep] + Join(pieces[1..], sep)
  }

  /** Joining the pieces of a split gives back the original string. */
  lemma {:induction false} JoinSplit(s: string, sep: char)
    ensures Join(Split(s, sep), sep) == s
    decreases |s|
  {
    if s != [] {
      var rest := Split(s[1..], sep);
      JoinSplit(s[1..], sep);
      if s[0] != sep {
        var pieces := Split(s, sep);
        if |rest| == 1 {
          assert pieces == [[s[0]] + rest[0]];
        } else {
          assert pieces[1..] == rest[1..];
          assert Join(rest, sep) == rest[0] + [sep] + Join(rest[1..], sep);
        }
      }
    }
  }

  /** A piece free of separators, followed by a separator, splits off as one piece. */
  lemma {:induction false} SplitAfterPiece(p: string, t: string, sep: char)
    requires sep !in p
    ensures Split(p + [sep] + t, sep) == [p] + Split(t, sep)
    decreases |p|
  {
    if p != [] {
      assert (p + [sep] + t)[1..] == p[1..] + [sep] + t;
      SplitAfterPiece(p[1..], t, sep);
      assert p == [p[0]] + p[1..];
    } else {
      assert p + [sep] + t == [sep] + t;
    }
  }

  /** A string free of separators is one piece. */
  lemma {:induction false} SplitNoSeparator(p: string, sep: char)
    requires sep !in p
    ensures Split(p, sep) == [p]
    decreases |p|
  {
    if p != [] {
      assert p == [p[0]] + p[1..];
      SplitNoSeparator(p[1..], sep);
    }
  }

  /** Splitting a join of separator-free pieces gives back the pieces. */
  lemma {:induction false} SplitJoin(pieces: seq<string>, sep: char)
    requires |pieces| >= 1
    requires forall i :: 0 <= i < |pieces| ==> sep !in pieces[i]
    ensures Split(Join(pieces, sep), sep) == pieces
    decreases |pieces|
  {
    if |pieces| == 1 {
      SplitNoSeparator(pieces[0], sep);
    } else {
      SplitJoin(pieces[1..], sep);
      SplitAfterPiece(pieces[0], Join(pieces[1..], sep), sep);
    }
  }

  /** Without a separator after the first character, a split has one piece: the whole string. */
  lemma SplitLastWhole(s: string, sep: char)
    requires s != [] && s[0] != sep && |Split(s[1..], sep)| == 1
    ensures Split(s, sep) == [s] && sep !in s
  {
    var rest := Split(s[1..], sep);
    JoinSplit(s[1..], sep);
    assert rest[0] == s[1..];
    assert Split(s, sep) == [[s[0]] + rest[0]];
    assert [s[0]] + s[1..] == s;
  }

  /** With a separator after the first character, the last piece is the last piece of the rest. */
  lemma SplitLastOfRest(s: string, sep: char)
    requires s != [] && (s[0] == sep || |Split(s[1..], sep)| > 1)
    ensures Split(s, sep)[|Split(s, sep)| - 1] == Split(s[1..], sep)[|Split(s[1..], sep)| - 1]
  {
  }

  /** A string split into several pieces holds the separator. */
  lemma SeveralPiecesHaveSeparator(s: string, sep: char)
    requires |Split(s, sep)| > 1
    ensures sep in s
  {
    if sep !in s {
      SplitNoSeparator(s, sep);
    }
  }

  /**
   * `s.split(sep)[-1]` is the text after the last separator: a separator-free
   * suffix of `s` that is either all of `s` or is preceded by a separator.
   */
  lemma {:induction false} LastPieceIsSuffix(s: string, sep: char)
    ensures var last := Split(s, sep)[|Split(s, sep)| - 1];
      && |last| <= |s| && s[|s| - |last|..] == last
      && (|last| == |s| <==> sep !in s)
      && (|last| < |s| ==> s[|s| - |last| - 1] == sep)
    decreases |s|
  {
    if s != [] {
      LastPieceIsSuffix(s[1..], sep);
      var rest := Split(s[1..], sep);
      if s[0] != sep && |rest| == 1 {
        SplitLastWhole(s, sep);
      } else {
        SplitLastOfRest(s, sep);
        if s[0] != sep {
          SeveralPiecesHaveSeparator(s[1..], sep);
          assert s == [s[0]] + s[1..];
        }
        var last := rest[|rest| - 1];
        assert s[1..][|s| - 1 - |last|..] == s[|s| - |last|..];
        if |last| < |s| - 1 {
          assert s[1..][|s| - 1 - |last| - 1] == s[|s| - |last| - 1];
        }
      }
    }
  }

  // ---------------------------------------------------------------- replace

  /**
   * `s.replace(pat, "")`: every occurrence of `pat` found scanning left to
   * right, without overlaps, is removed.
   */
  function RemoveAll(s: string, pat: string): (r: string)
    requires pat != []
    ensures |r| <= |s|
    ensures !Contains(s, pat) ==> r == s
    ensures Contains(s, pat) ==> |r| <= |s| - |pat|
    decreases |s|
  {
    if |s| < |pat| then
      ShorterLacks(s, pat);
      s
    else if s[..|pat|] == pat then RemoveAll(s[|pat|..], pat)
    else [s[0]] + RemoveAll(s[1..], pat)
  }

  /** An occurrence at the front is removed and the scan goes on after it. */
  lemma RemoveLeading(pat: string, s: string)
    requires pat != []
    ensures RemoveAll(pat + s, pat) == RemoveAll(s, pat)
  {
    assert (pat + s)[..|pat|] == pat;
    assert (pat + s)[|pat|..] == s;
  }

  /** A trailing occurrence that nothing before it can reach into is removed. */
  lemma {:induction false} RemoveTrailing(t: string, pat: string)
    requires pat != [] && pat[0] !in t
    ensures RemoveAll(t + pat, pat) == t
  {
    var x := t + pat;
    if t == [] {
      assert x == pat + [];
      RemoveLeading(pat, []);
    } else {
      assert x[..|pat|] != pat by {
        assert x[0] == t[0];
      }
      assert x[1..] == t[1..] + pat;
      RemoveTrailing(t[1..], pat);
    }
  }

  // ---------------------------------------------------------------- lower

  /** `str.lower()` on one character, ASCII letters only. */
  function LowerChar(c: char): (d: char)
    ensures 'A' <= c <= 'Z' ==> d as int == c as int + 32
    ensures !('A' <= c <= 'Z') ==> d == c
  {
    if 'A' <= c <= 'Z' then (c as int + 32) as char else c
  }

  /** `str.lower()`, ASCII letters only: same length, each character lowered. */
  function AsciiLower(s: string): (r: string)
    ensures |r| == |s|
    ensures forall i :: 0 <= i < |s| ==> r[i] == LowerChar(s[i])
    decreases |s|
  {
    if s == [] then [] else [LowerChar(s[0])] + AsciiLower(s[1..])
  }

  /** Lowering keeps every occurrence, lowered. */
  lemma {:induction false} ContainsLowered(s: string, w: string)
    requires Contains(s, w)
    ensures Contains(AsciiLower(s), AsciiLower(w))
  {
    var i := ContainsHasOffset(s, w);
    var ls := AsciiLower(s);
    assert ls[i..][..|w|] == AsciiLower(w);
    ContainsAt(ls, AsciiLower(w), i);
  }

  /** An ASCII literal that is already lower case is its own lowering. */
  lemma LowerOfLowercase(w: string)
    requires forall i :: 0 <= i < |w| ==> !('A' <= w[i] <= 'Z')
    ensures AsciiLower(w) == w
  {
  }

  // ---------------------------------------------------------------- ordering

  /** Python's `<` on `str`: lexicographic by code point, a proper prefix first. */
  predicate Less(a: string, b: string)
    decreases |a|
  {
    if a == [] then b != []
    else b != [] && (a[0] < b[0] || (a[0] == b[0] && Less(a[1..], b[1..])))
  }

  lemma {:induction false} LessIrreflexive(a: string)
    ensures !Less(a, a)
    decreases |a|
  {
    if a != [] {
      LessIrreflexive(a[1..]);
    }
  }

  lemma {:induction false} LessTransitive(a: string, b: string, c: string)
    requires Less(a, b) && Less(b, c)
    ensures Less(a, c)
    decreases |a|
  {
    if a != [] && a[0] == b[0] && b[0] == c[0] {
      LessTransitive(a[1..], b[1..], c[1..]);
    }
  }

  lemma {:induction false} LessTotal(a: string, b: string)
    ensures a == b || Less(a, b) || Less(b, a)
    decreases |a|
  {
    if a != [] && b != [] && a[0] == b[0] {
      LessTotal(a[1..], b[1..]);
      if a[1..] == b[1..] {
        assert a == [a[0]] + a[1..] && b == [b[0]] + b[1..];
      }
    }
  }

  /** `m` is the least string of `s`. */
  predicate IsLeast(m: string, s: set<string>) {
    m in s && forall x :: x in s ==> x == m || Less(m, x)
  }

  /** A set has at most one least string. */
  lemma LeastUnique(s: set<string>)
    ensures forall m, m' :: IsLeast(m, s) && IsLeast(m', s) ==> m == m'
  {
    forall m, m' | IsLeast(m, s) && IsLeast(m', s) ensures m == m' {
      if m != m' {
        LessTransitive(m, m', m);
        LessIrreflexive(m);
      }
    }
  }

  /** A finite, non-empty set of strings has a least element. */
  lemma {:induction false} MinimumExists(s: set<string>)
    requires s != {}
    ensures exists m :: IsLeast(m, s)
    decreases |s|
  {
    var y :| y in s;
    if s != {y} {
      var rest := s - {y};
      MinimumExists(rest);
      var m :| IsLeast(m, rest);
      LessTotal(y, m);
      if Less(y, m) {
        forall x | x in s
          ensures x == y || Less(y, x)
        {
          if x != y && x != m {
            LessTransitive(y, m, x);
          }
        }
        assert IsLeast(y, s);
      } else {
        assert IsLeast(m, s);
      }
    } else {
      assert IsLeast(y, s);
    }
  }

  /** The elements of a sequence, as a set. */
  function Elements(xs: seq<string>): set<string> {
    set x | x in xs
  }

  lemma ElementsAppend(xs: seq<string>, x: string)
    ensures Elements(xs + [x]) == Elements(xs) + {x}
  {
    var ys := xs + [x];
    assert forall i :: 0 <= i < |xs| ==> ys[i] == xs[i];
    assert ys[|xs|] == x;
  }

  lemma HeadInElements(xs: seq<string>)
    requires xs != []
    ensures xs[0] in Elements(xs)
  {
  }

  /** Strictly ascending under `Less`: sorted and free of duplicates. */
  predicate StrictlyAscending(xs: seq<string>) {
    forall i, j :: 0 <= i < j < |xs| ==> Less(xs[i], xs[j])
  }

  /** `xs` lists the strings of `s` in strictly ascending order, each once. */
  predicate SortingOf(xs: seq<string>, s: set<string>) {
    StrictlyAscending(xs) && Elements(xs) == s && |xs| == |s|
  }

  /** `sorted(s)` for a set of strings: its least string, then the sorting of the rest. */
  function SortedStrings(s: set<string>): seq<string>
    decreases |s|
  {
    if s == {} then []
    else
      MinimumExists(s);
      LeastUnique(s);
      var m :| IsLeast(m, s);
      [m] + SortedStrings(s - {m})
  }

  /** Putting a string below all others in front keeps the order strict. */
  lemma AscendingPrepend(m: string, xs: seq<string>)
    requires StrictlyAscending(xs)
    requires forall i :: 0 <= i < |xs| ==> Less(m, xs[i])
    ensures StrictlyAscending([m] + xs)
  {
    var ys := [m] + xs;
    forall i, j | 0 <= i < j < |ys| ensures Less(ys[i], ys[j]) {
      assert ys[j] == xs[j - 1];
      if i > 0 {
        assert ys[i] == xs[i - 1];
      }
    }
  }

  lemma ElementsPrepend(m: string, xs: seq<string>)
    ensures Elements([m] + xs) == {m} + Elements(xs)
  {
    assert forall x :: x in [m] + xs <==> x == m || x in xs;
  }

  /** `sorted` lists every string of the set once, in strictly ascending order. */
  lemma {:induction false} SortedStringsSorts(s: set<string>)
    ensures SortingOf(SortedStrings(s), s)
    decreases |s|
  {
    if s != {} {
      MinimumExists(s);
      LeastUnique(s);
      var m :| IsLeast(m, s);
      var rest := SortedStrings(s - {m});
      assert SortedStrings(s) == [m] + rest;
      SortedStringsSorts(s - {m});
      assert forall i :: 0 <= i < |rest| ==> rest[i] in Elements(rest);
      AscendingPrepend(m, rest);
      ElementsPrepend(m, rest);
    }
  }

  /** There is only one strictly ascending arrangement of a set of strings. */
  lemma {:induction false} AscendingUnique(xs: seq<string>, ys: seq<string>)
    requires StrictlyAscending(xs) && StrictlyAscending(ys)
    requires Elements(xs) == Elements(ys)
    ensures xs == ys
    decreases |xs|
  {
    if xs == [] {
      if ys != [] {
        HeadInElements(ys);
        assert false;
      }
    } else {
      assert xs[0] in Elements(xs);
      assert ys != [];
      assert ys[0] in Elements(ys);
      // both heads are the least element of the common set
      var i :| 0 <= i < |ys| && ys[i] == xs[0];
      var j :| 0 <= j < |xs| && xs[j] == ys[0];
      if xs[0] != ys[0] {
        assert i > 0 && j > 0;
        LessTransitive(xs[0], xs[j], ys[i]);
        LessIrreflexive(xs[0]);
        assert false;
      }
      forall k | 0 < k < |xs| ensures xs[k] != xs[0] {
        LessIrreflexive(xs[0]);
      }
      forall k | 0 < k < |ys| ensures ys[k] != ys[0] {
        LessIrreflexive(ys[0]);
      }
      assert Elements(xs[1..]) == Elements(xs) - {xs[0]} by {
        forall x | x in Elements(xs) && x != xs[0] ensures x in Elements(xs[1..]) {
          var k :| 0 <= k < |xs| && xs[k] == x;
          assert xs[1..][k - 1] == x;
        }
      }
      assert Elements(ys[1..]) == Elements(ys) - {ys[0]} by {
        forall x | x in Elements(ys) && x != ys[0] ensures x in Elements(ys[1..]) {
          var k :| 0 <= k < |ys| && ys[k] == x;
          assert ys[1..][k - 1] == x;
        }
      }
      AscendingUnique(xs[1..], ys[1..]);
      assert xs == [xs[0]] + xs[1..] && ys == [ys[0]] + ys[1..];
    }
  }
}
