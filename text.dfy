/**
 * The few Python `str` operations the renamer relies on, over `seq<char>`:
 * `find`, `split(sep)`, `split(sep, 1)`, `replace(old, new)` and the
 * whitespace removal performed by `''.join(s.split())`.
 */
module Text {

  /** `pat` occurs in `s` starting at index `i`. */
  predicate OccursAt(s: string, pat: string, i: int) {
    0 <= i && i + |pat| <= |s| && s[i..i + |pat|] == pat
  }


  /**
   * Python's `s.find(pat)`: the lowest index at which `pat` occurs,
   * or -1 when it does not occur at all.
   */
  function IndexOf(s: string, pat: string): (r: int)
    ensures r == -1 || OccursAt(s, pat, r)
    ensures r == -1 ==> forall j :: !OccursAt(s, pat, j)
    ensures forall j :: 0 <= j < r ==> !OccursAt(s, pat, j)
  {
    IndexFrom(s, pat, 0)
  }

  /** The lowest index from `k` on at which `pat` occurs, or -1. */
  function IndexFrom(s: string, pat: string, k: nat): (r: int)
    ensures r == -1 || (k <= r && OccursAt(s, pat, r))
    ensures r == -1 ==> forall j :: k <= j ==> !OccursAt(s, pat, j)
    ensures forall j :: k <= j < r ==> !OccursAt(s, pat, j)
    decreases |s| - k
  {
    if k + |pat| > |s| then -1
    else if OccursAt(s, pat, k) then k
    else IndexFrom(s, pat, k + 1)
  }

  /** Python's `pat in s`, which holds exactly when `s.find(pat)` finds it. */
  predicate Contains(s: string, pat: string) {
    IndexOf(s, pat) != -1
  }

  /** No occurrence starts before `i`, so none lies inside `s[..i]`. */
  lemma NoOccurrenceInPrefix(s: string, pat: string, i: int)
    requires 0 <= i <= |s| && |pat| > 0
    requires forall j :: 0 <= j < i ==> !OccursAt(s, pat, j)
    ensures !Contains(s[..i], pat)
  {
    if Contains(s[..i], pat) {
      var j := IndexOf(s[..i], pat);
      assert s[..i][j..j + |pat|] == s[j..j + |pat|];
      assert OccursAt(s, pat, j);
    }
  }

  /** A string without `pat` has no prefix containing `pat`. */
  lemma PrefixKeepsAbsence(s: string, pat: string, n: int)
    requires 0 <= n <= |s| && !Contains(s, pat)
    ensures !Contains(s[..n], pat)
  {
    if Contains(s[..n], pat) {
      var j := IndexOf(s[..n], pat);
      assert s[..n][j..j + |pat|] == s[j..j + |pat|];
      assert OccursAt(s, pat, j);
    }
  }

  /** `s.find(c)` for a one-character `c` that occurs is the index of its first occurrence. */
  lemma FirstChar(s: string, c: string)
    requires |c| == 1 && IndexOf(s, c) != -1
    ensures var i := IndexOf(s, c);
      0 <= i < |s| && s[i] == c[0] && c[0] !in s[..i]
  {
    var i := IndexOf(s, c);
    NoOccurrenceInPrefix(s, c, i);
    assert c == [c[0]];
    ContainsChar(s[..i], c[0]);
    assert s[i] == s[i..i + 1][0];
  }

  /** A prefix of a suffix is a slice. */
  lemma SliceOfSuffix(s: string, k: int, n: int)
    requires 0 <= k <= |s| && 0 <= n <= |s| - k
    ensures s[k..][..n] == s[k..k + n]
  {
  }

  /** For a one-character pattern, `Contains` is membership. */
  lemma ContainsChar(s: string, c: char)
    ensures Contains(s, [c]) <==> c in s
  {
    if c in s {
      var i :| 0 <= i < |s| && s[i] == c;
      assert s[i..i + 1] == [c];
      assert OccursAt(s, [c], i);
    }
    if Contains(s, [c]) {
      var i := IndexOf(s, [c]);
      assert s[i] == s[i..i + 1][0];
    }
  }

  /**
   * Python's `s.split(sep)`: the pieces between successive non-overlapping
   * occurrences of `sep`, scanning from the left. An empty separator is
   * a `ValueError` in Python, hence the precondition.
   */
  function Split(s: string, sep: string): (parts: seq<string>)
    requires |sep| > 0
    ensures |parts| >= 1
    decreases |s|
  {
    var i := IndexOf(s, sep);
    if i == -1 then [s] else [s[..i]] + Split(s[i + |sep|..], sep)
  }

  /** Python's `s.split(sep, 1)`: at most one cut, at the first occurrence. */
  function SplitOnce(s: string, sep: string): (parts: seq<string>)
    requires |sep| > 0
  {
    var i := IndexOf(s, sep);
    if i == -1 then [s] else [s[..i], s[i + |sep|..]]
  }

  /** Python's `sep.join(parts)`. */
  function Join(parts: seq<string>, sep: string): string
    requires |parts| >= 1
  {
    if |parts| == 1 then parts[0] else parts[0] + sep + Join(parts[1..], sep)
  }

  /** Splitting and joining again with the same separator gives the string back. */
  lemma {:induction false} JoinSplit(s: string, sep: string)
    requires |sep| > 0
    ensures Join(Split(s, sep), sep) == s
    decreases |s|
  {
    var i := IndexOf(s, sep);
    if i == -1 {
      assert Split(s, sep) == [s];
    } else {
      var rest := s[i + |sep|..];
      var parts := Split(s, sep);
      assert parts == [s[..i]] + Split(rest, sep);
      assert parts[1..] == Split(rest, sep);
      JoinSplit(rest, sep);
      assert Join(parts, sep) == s[..i] + sep + rest;
      assert s[i..i + |sep|] == sep;
      SliceAround(s, i, i + |sep|);
    }
  }

  /** A string is the concatenation of the three slices two cut points make. */
  lemma SliceAround(s: string, i: int, j: int)
    requires 0 <= i <= j <= |s|
    ensures s == s[..i] + s[i..j] + s[j..]
  {
  }

  /** There is more than one piece exactly when the separator occurs. */
  lemma SplitCount(s: string, sep: string)
    requires |sep| > 0
    ensures |Split(s, sep)| >= 2 <==> Contains(s, sep)
  {
  }

  /**
   * The first piece of a split is the prefix of `s` before the first
   * occurrence of `sep`: a prefix free of `sep`, which is either all of `s`
   * or is followed in `s` by `sep`. This holds for `split(sep, 1)` too.
   */
  lemma SplitHead(s: string, sep: string)
    requires |sep| > 0
    ensures var h := Split(s, sep)[0];
      && h == SplitOnce(s, sep)[0]
      && |h| <= |s| && h == s[..|h|]
      && !Contains(h, sep)
      && (h == s || OccursAt(s, sep, |h|))
  {
    var i := IndexOf(s, sep);
    if i == -1 {
      assert s[..|s|] == s;
    } else {
      NoOccurrenceInPrefix(s, sep, i);
    }
  }

  /** The second piece of a split is the first piece of what follows the first separator. */
  lemma SplitSecond(s: string, sep: string)
    requires |sep| > 0 && Contains(s, sep)
    ensures |Split(s, sep)| >= 2
    ensures Split(s, sep)[1] == Split(s[IndexOf(s, sep) + |sep|..], sep)[0]
  {
    var i := IndexOf(s, sep);
    var tail := Split(s[i + |sep|..], sep);
    assert Split(s, sep) == [s[..i]] + tail;
    assert ([s[..i]] + tail)[1] == tail[0];
  }

  /** An occurrence inside the slice `p == s[k..k + |p|]` is an occurrence in `s`, `k` later. */
  lemma OccursInSlice(s: string, k: int, p: string, pat: string, j: int)
    requires 0 <= k && k + |p| <= |s| && p == s[k..k + |p|] && OccursAt(p, pat, j)
    ensures OccursAt(s, pat, k + j)
  {
    var inS, inP := s[k + j..k + j + |pat|], p[j..j + |pat|];
    forall i | 0 <= i < |pat| ensures inS[i] == inP[i] {
      assert p[j + i] == s[k + j + i];
    }
    assert inS == inP;
  }

  /**
   * The first `b`-piece of the first `a`-piece of `s[k..]` starts at `k`
   * in `s` and contains neither separator.
   */
  lemma HeadOfHead(s: string, k: int, a: string, b: string)
    requires 0 <= k <= |s| && |a| > 0 && |b| > 0
    ensures var name := Split(Split(s[k..], a)[0], b)[0];
      && k + |name| <= |s| && s[k..k + |name|] == name
      && !Contains(name, a) && !Contains(name, b)
  {
    var piece := Split(s[k..], a)[0];
    SplitHead(s[k..], a);
    var name := Split(piece, b)[0];
    SplitHead(piece, b);
    PrefixKeepsAbsence(piece, a, |name|);
    SliceOfSuffix(s, k, |name|);
  }

  /**
   * The first `b`-piece of the first `a`-piece of `s[k..]` ends where `s`
   * ends or where a `b` or an `a` begins.
   */
  lemma HeadOfHeadEnds(s: string, k: int, a: string, b: string)
    requires 0 <= k <= |s| && |a| > 0 && |b| > 0
    ensures var name := Split(Split(s[k..], a)[0], b)[0];
      k + |name| == |s| || OccursAt(s, b, k + |name|) || OccursAt(s, a, k + |name|)
  {
    var rest := s[k..];
    var piece := Split(rest, a)[0];
    SplitHead(rest, a);
    var name := Split(piece, b)[0];
    SplitHead(piece, b);
    if name != piece {
      SliceOfSuffix(s, k, |piece|);
      OccursInSlice(s, k, piece, b, |name|);
    } else if piece != rest {
      assert rest == s[k..k + |rest|];
      OccursInSlice(s, k, rest, a, |piece|);
    }
  }

  /**
   * The first `b`-piece of the second `a`-piece of `s` is the text right
   * after the first `a`, and contains neither separator.
   */
  lemma SecondPieceHead(s: string, a: string, b: string)
    requires |a| > 0 && |b| > 0 && Contains(s, a)
    ensures |Split(s, a)| >= 2
    ensures var name, start := Split(Split(s, a)[1], b)[0], IndexOf(s, a) + |a|;
      && start + |name| <= |s| && s[start..start + |name|] == name
      && !Contains(name, a) && !Contains(name, b)
      && (start + |name| == |s| || OccursAt(s, b, start + |name|) || OccursAt(s, a, start + |name|))
  {
    var k := IndexOf(s, a) + |a|;
    SplitSecond(s, a);
    var second := Split(s, a)[1];
    assert second == Split(s[k..], a)[0];
    HeadOfHead(s, k, a, b);
    HeadOfHeadEnds(s, k, a, b);
  }

  /** No piece of a split contains the separator. */
  lemma {:induction false} SplitPiecesFree(s: string, sep: string)
    requires |sep| > 0
    ensures forall k :: 0 <= k < |Split(s, sep)| ==> !Contains(Split(s, sep)[k], sep)
    decreases |s|
  {
    var i := IndexOf(s, sep);
    if i != -1 {
      var rest := s[i + |sep|..];
      SplitPiecesFree(rest, sep);
      NoOccurrenceInPrefix(s, sep, i);
      assert Split(s, sep) == [s[..i]] + Split(rest, sep);
    }
  }

  /**
   * Python's `s.replace(pat, rep)` for a non-empty `pat`: every occurrence
   * found scanning left to right, without overlap, is replaced.
   */
  function Replace(s: string, pat: string, rep: string): string
    requires |pat| > 0
    decreases |s|
  {
    if s == [] then []
    else if OccursAt(s, pat, 0) then rep + Replace(s[|pat|..], pat, rep)
    else [s[0]] + Replace(s[1..], pat, rep)
  }

  /** Replacing a pattern that does not occur changes nothing. */
  lemma {:induction false} ReplaceAbsent(s: string, pat: string, rep: string)
    requires |pat| > 0 && !Contains(s, pat)
    ensures Replace(s, pat, rep) == s
    decreases |s|
  {
    if s != [] {
      assert !OccursAt(s, pat, 0);
      forall j | OccursAt(s[1..], pat, j) ensures OccursAt(s, pat, j + 1) {
        assert s[1..][j..j + |pat|] == s[j + 1..j + 1 + |pat|];
      }
      ReplaceAbsent(s[1..], pat, rep);
    }
  }

  /**
   * The characters Python's `str.split()` (no argument) splits on: those
   * for which `str.isspace()` holds.
   */
  predicate IsWhitespace(c: char) {
    || '\U{0009}' <= c <= '\U{000D}'
    || '\U{001C}' <= c <= '\U{0020}'
    || c == '\U{0085}' || c == '\U{00A0}' || c == '\U{1680}'
    || '\U{2000}' <= c <= '\U{200A}'
    || c == '\U{2028}' || c == '\U{2029}' || c == '\U{202F}' || c == '\U{205F}'
    || c == '\U{3000}'
  }

  predicate NoWhitespace(s: string) {
    forall i :: 0 <= i < |s| ==> !IsWhitespace(s[i])
  }

  /**
   * `''.join(s.split())`: `split()` yields the maximal runs of
   * non-whitespace characters and the join glues them together again,
   * so every whitespace character is dropped and nothing else.
   */
  function RemoveWhitespace(s: string): (r: string)
    ensures NoWhitespace(r)
    ensures |r| <= |s|
    ensures NoWhitespace(s) ==> r == s
    decreases |s|
  {
    if s == [] then []
    else if IsWhitespace(s[0]) then RemoveWhitespace(s[1..])
    else [s[0]] + RemoveWhitespace(s[1..])
  }

  /** The length of the run of non-whitespace characters that starts `s`. */
  function WordLength(s: string): (n: nat)
    ensures n <= |s|
    ensures NoWhitespace(s[..n])
    ensures n == |s| || IsWhitespace(s[n])
    decreases |s|
  {
    if s == [] || IsWhitespace(s[0]) then 0
    else
      var m := WordLength(s[1..]);
      assert s[..1 + m] == [s[0]] + s[1..][..m];
      1 + m
  }

  /**
   * Python's `s.split()` with no argument: the maximal runs of
   * non-whitespace characters, in order, so never an empty word.
   */
  function Words(s: string): (words: seq<string>)
    ensures forall k :: 0 <= k < |words| ==> words[k] != [] && NoWhitespace(words[k])
    decreases |s|
  {
    if s == [] then []
    else if IsWhitespace(s[0]) then Words(s[1..])
    else
      var n := WordLength(s);
      [s[..n]] + Words(s[n..])
  }

  /** Python's `''.join(parts)`. */
  function Concat(parts: seq<string>): string {
    if parts == [] then [] else parts[0] + Concat(parts[1..])
  }

  /** Removing whitespace from a concatenation removes it from each part. */
  lemma {:induction false} RemoveWhitespaceAppend(a: string, b: string)
    ensures RemoveWhitespace(a + b) == RemoveWhitespace(a) + RemoveWhitespace(b)
    decreases |a|
  {
    if a == [] {
      assert a + b == b;
    } else {
      assert (a + b)[0] == a[0] && (a + b)[1..] == a[1..] + b;
      RemoveWhitespaceAppend(a[1..], b);
    }
  }

  /**
   * `''.join(s.split())` drops exactly the whitespace characters of `s`
   * and keeps every other character, in order.
   */
  lemma {:induction false} JoinWords(s: string)
    ensures Concat(Words(s)) == RemoveWhitespace(s)
    decreases |s|
  {
    if s != [] && !IsWhitespace(s[0]) {
      var n := WordLength(s);
      var tail := Words(s[n..]);
      JoinWords(s[n..]);
      assert Words(s) == [s[..n]] + tail;
      assert ([s[..n]] + tail)[1..] == tail;
      assert s == s[..n] + s[n..];
      RemoveWhitespaceAppend(s[..n], s[n..]);
    } else if s != [] {
      JoinWords(s[1..]);
    }
  }

  /** `replace` with a replacement no longer than the pattern never lengthens. */
  lemma {:induction false} ReplaceShrinks(s: string, pat: string, rep: string)
    requires |pat| > 0 && |rep| <= |pat|
    ensures |Replace(s, pat, rep)| <= |s|
    decreases |s|
  {
    if s != [] {
      if OccursAt(s, pat, 0) {
        ReplaceShrinks(s[|pat|..], pat, rep);
      } else {
        ReplaceShrinks(s[1..], pat, rep);
      }
    }
  }

  /** Removing `", "` keeps the count of every character other than `,` and space. */
  lemma {:induction false} RemoveCommaSpaceCounts(s: string, c: char)
    requires c != ',' && c != ' '
    ensures multiset(Replace(s, ", ", ""))[c] == multiset(s)[c]
    decreases |s|
  {
    if s != [] {
      if OccursAt(s, ", ", 0) {
        RemoveCommaSpaceCounts(s[2..], c);
        assert s == ", " + s[2..];
      } else {
        RemoveCommaSpaceCounts(s[1..], c);
        assert s == [s[0]] + s[1..];
      }
    }
  }

  /** Removing whitespace keeps the count of every other character. */
  lemma {:induction false} RemoveWhitespaceCounts(s: string, c: char)
    requires !IsWhitespace(c)
    ensures multiset(RemoveWhitespace(s))[c] == multiset(s)[c]
    decreases |s|
  {
    if s != [] {
      RemoveWhitespaceCounts(s[1..], c);
      assert s == [s[0]] + s[1..];
    }
  }
}
