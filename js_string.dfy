/** The parts of JavaScript's string library that the application relies on:
    `split` with a non-empty string separator, together with the search for
    the next occurrence that `split` performs internally, and `trim`. Strings are sequences of characters; positions
    are indices into them. */
module JsString {
  import opened Wrappers

  // ---------------------------------------------------------------------
  // Occurrences of a separator

  /** `sep` occurs in `s` starting at position `i`. */
  predicate OccursAt(s: string, sep: string, i: nat) {
    i + |sep| <= |s| && s[i..i + |sep|] == sep
  }

  /** `sep` occurs somewhere in `s`. */
  ghost predicate Contains(s: string, sep: string) {
    exists i: nat :: OccursAt(s, sep, i)
  }

  /** No proper suffix of `sep` starts like `sep` does, so two occurrences
      can never overlap. Both separators of the application have this form. */
  predicate FirstCharUnique(sep: string) {
    |sep| > 0 && forall d :: 1 <= d < |sep| ==> sep[d] != sep[0]
  }

  /** An occurrence inside the slice `s[k..j]` is an occurrence in `s`,
      shifted by `k`. */
  lemma OccursInSlice(s: string, sep: string, k: nat, j: nat, m: nat)
    requires k <= j <= |s| && m + |sep| <= j - k
    ensures OccursAt(s[k..j], sep, m) <==> OccursAt(s, sep, k + m)
  {
    var inner, outer := s[k..j][m..m + |sep|], s[k + m..k + m + |sep|];
    forall t | 0 <= t < |sep| ensures inner[t] == outer[t] {
    }
    assert inner == outer;
  }

  /** The first position at or after `from` where `sep` occurs in `s`: the
      search ECMAScript's `split` performs for each piece (the same answer as
      `s.indexOf(sep, from)`, with `None` for -1). */
  function IndexOfFrom(s: string, sep: string, from: nat): (r: Option<nat>)
    decreases |s| - from
    ensures r.Some? ==> from <= r.value && OccursAt(s, sep, r.value)
    ensures r.Some? ==> forall j: nat :: from <= j < r.value ==> !OccursAt(s, sep, j)
    ensures r.None? ==> forall j: nat :: from <= j ==> !OccursAt(s, sep, j)
  {
    if from + |sep| > |s| then None
    else if OccursAt(s, sep, from) then Some(from)
    else IndexOfFrom(s, sep, from + 1)
  }

  /** The search from 0 finds nothing exactly when there is no occurrence. */
  lemma IndexOfNone(s: string, sep: string)
    ensures IndexOfFrom(s, sep, 0).None? <==> !Contains(s, sep)
  {
    var r := IndexOfFrom(s, sep, 0);
    if r.Some? {
      assert OccursAt(s, sep, r.value);
    }
  }

  /** The search from `k` finds `j` when `s[k..j]` holds no occurrence and
      one starts at `j`: an earlier one would lie in the slice or overlap
      the one at `j`. */
  lemma IndexOfFromFinds(s: string, sep: string, k: nat, j: nat)
    requires FirstCharUnique(sep) && k <= j && OccursAt(s, sep, j) && !Contains(s[k..j], sep)
    ensures IndexOfFrom(s, sep, k) == Some(j)
  {
    forall m: nat | k <= m < j ensures !OccursAt(s, sep, m) {
      if m + |sep| <= j {
        OccursInSlice(s, sep, k, j, m - k);
        assert !OccursAt(s[k..j], sep, m - k);
      } else if m + |sep| <= |s| {
        var d := j - m;
        assert s[m + d] == s[j..j + |sep|][0] == sep[0];
        assert s[m..m + |sep|][d] == s[m + d];
      }
    }
  }

  /** The search from `k` finds nothing when `s[k..]` holds no occurrence. */
  lemma IndexOfFromMisses(s: string, sep: string, k: nat)
    requires k <= |s| && !Contains(s[k..], sep)
    ensures IndexOfFrom(s, sep, k) == None
  {
    forall m: nat | k <= m && OccursAt(s, sep, m) ensures false {
      assert s[k..][m - k..m - k + |sep|] == s[m..m + |sep|];
      assert OccursAt(s[k..], sep, m - k);
    }
  }

  // ---------------------------------------------------------------------
  // split

  /** The pieces of `s[from..]` in ECMAScript's `split` algorithm: search
      from the current position, cut, resume just past the separator. */
  function SplitFrom(s: string, sep: string, from: nat): (r: seq<string>)
    requires |sep| > 0 && from <= |s|
    decreases |s| - from
    ensures |r| >= 1
  {
    match IndexOfFrom(s, sep, from)
    case None => [s[from..]]
    case Some(i) => [s[from..i]] + SplitFrom(s, sep, i + |sep|)
  }

  /** `s.split(sep)` for a non-empty string separator. */
  function Split(s: string, sep: string): (r: seq<string>)
    requires |sep| > 0
    ensures |r| >= 1
  {
    SplitFrom(s, sep, 0)
  }

  /** Joining the pieces with the separator between them (`parts.join(sep)`). */
  function Join(parts: seq<string>, sep: string): string
    requires |parts| >= 1
  {
    if |parts| == 1 then parts[0] else parts[0] + sep + Join(parts[1..], sep)
  }

  /** Splitting loses nothing: joining the pieces gives back the text. */
  lemma {:induction false} SplitFromJoin(s: string, sep: string, from: nat)
    requires |sep| > 0 && from <= |s|
    ensures Join(SplitFrom(s, sep, from), sep) == s[from..]
    decreases |s| - from
  {
    match IndexOfFrom(s, sep, from)
    case None =>
    case Some(i) =>
      var next := i + |sep|;
      SplitFromJoin(s, sep, next);
      assert SplitFrom(s, sep, from)[1..] == SplitFrom(s, sep, next);
      assert s[from..] == s[from..i] + s[i..next] + s[next..];
  }

  lemma SplitJoin(s: string, sep: string)
    requires |sep| > 0
    ensures Join(Split(s, sep), sep) == s
  {
    SplitFromJoin(s, sep, 0);
  }

  /** No piece contains the separator. */
  lemma {:induction false} SplitFromPiecesAreFree(s: string, sep: string, from: nat, k: nat)
    requires |sep| > 0 && from <= |s| && k < |SplitFrom(s, sep, from)|
    ensures !Contains(SplitFrom(s, sep, from)[k], sep)
    decreases |s| - from
  {
    var r := IndexOfFrom(s, sep, from);
    var end := if r.Some? then r.value else |s|;
    if k == 0 {
      assert SplitFrom(s, sep, from)[0] == s[from..end];
      forall m: nat | OccursAt(s[from..end], sep, m) ensures false {
        OccursInSlice(s, sep, from, end, m);
      }
    } else {
      var next := r.value + |sep|;
      assert SplitFrom(s, sep, from)[k] == SplitFrom(s, sep, next)[k - 1];
      SplitFromPiecesAreFree(s, sep, next, k - 1);
    }
  }

  lemma SplitPiecesAreFree(s: string, sep: string, k: nat)
    requires |sep| > 0 && k < |Split(s, sep)|
    ensures !Contains(Split(s, sep)[k], sep)
  {
    SplitFromPiecesAreFree(s, sep, 0, k);
  }

  /** Without an occurrence the text is its own only piece; with one there
      are at least two. */
  lemma SplitSingle(s: string, sep: string)
    requires |sep| > 0
    ensures |Split(s, sep)| == 1 <==> !Contains(s, sep)
  {
    IndexOfNone(s, sep);
  }

  /** Piece 0 of `pre + sep + post` is `pre` when `pre` holds no occurrence,
      and the later pieces are those that start right after the separator. */
  lemma SplitAtFirst(pre: string, sep: string, post: string)
    requires FirstCharUnique(sep) && !Contains(pre, sep)
    ensures var s := pre + sep + post;
      Split(s, sep) == [pre] + SplitFrom(s, sep, |pre| + |sep|)
  {
    var s := pre + sep + post;
    assert s[0..|pre|] == pre;
    assert s[|pre|..|pre| + |sep|] == sep;
    IndexOfFromFinds(s, sep, 0, |pre|);
  }

  /** The piece that starts at `k` ends at `j` if the slice `s[k..j]` is
      free and an occurrence starts at `j`. */
  lemma PieceEndsAtOccurrence(s: string, sep: string, k: nat, j: nat)
    requires FirstCharUnique(sep) && k <= j && OccursAt(s, sep, j) && !Contains(s[k..j], sep)
    ensures SplitFrom(s, sep, k)[0] == s[k..j]
  {
    IndexOfFromFinds(s, sep, k, j);
  }

  /** The piece that starts at `k` is the last one, running to the end of
      the text, if that rest is free. */
  lemma PieceRunsToEnd(s: string, sep: string, k: nat)
    requires |sep| > 0 && k <= |s| && !Contains(s[k..], sep)
    ensures SplitFrom(s, sep, k) == [s[k..]]
  {
    IndexOfFromMisses(s, sep, k);
  }

  /** One separator between two free texts: exactly those two pieces. */
  lemma SplitOnce(pre: string, sep: string, post: string)
    requires FirstCharUnique(sep) && !Contains(pre, sep) && !Contains(post, sep)
    ensures Split(pre + sep + post, sep) == [pre, post]
  {
    var s := pre + sep + post;
    var k := |pre| + |sep|;
    SplitAtFirst(pre, sep, post);
    assert s[k..] == post;
    PieceRunsToEnd(s, sep, k);
  }

  /** Two separators after free texts: the first two pieces are those texts,
      whatever follows the second separator. */
  lemma SplitTwice(pre: string, sep: string, mid: string, rest: string)
    requires FirstCharUnique(sep) && !Contains(pre, sep) && !Contains(mid, sep)
    ensures var parts := Split(pre + sep + mid + sep + rest, sep);
      |parts| >= 2 && parts[0] == pre && parts[1] == mid
  {
    var s := pre + sep + mid + sep + rest;
    var k := |pre| + |sep|;
    var j := k + |mid|;
    assert s == pre + sep + (mid + sep + rest);
    SplitAtFirst(pre, sep, mid + sep + rest);
    assert s[k..j] == mid;
    assert s[j..j + |sep|] == sep;
    PieceEndsAtOccurrence(s, sep, k, j);
  }

  /** A one-character separator occurs exactly when the character does. */
  lemma ContainsChar(s: string, c: char)
    ensures Contains(s, [c]) <==> c in s
  {
    if c in s {
      var i :| 0 <= i < |s| && s[i] == c;
      assert s[i..i + 1] == [c];
      assert OccursAt(s, [c], i);
    }
    if Contains(s, [c]) {
      var i: nat :| OccursAt(s, [c], i);
      assert s[i] == s[i..i + 1][0];
    }
  }

  /** A separator never occurs in a text that lacks its first character. */
  lemma LacksFirstChar(s: string, sep: string)
    requires |sep| > 0 && sep[0] !in s
    ensures !Contains(s, sep)
  {
  }

  /** Piece 0 when splitting on one character: the prefix up to the first
      such character, or the whole text. */
  lemma FirstPieceOnChar(s: string, c: char, head: string, rest: string)
    requires s == head + rest && c !in head && (rest == [] || rest[0] == c)
    ensures Split(s, [c])[0] == head
  {
    ContainsChar(head, c);
    assert s[0..|head|] == head;
    if rest == [] {
      assert s[0..] == head;
      PieceRunsToEnd(s, [c], 0);
    } else {
      assert s[|head|..|head| + 1] == [c];
      assert OccursAt(s, [c], |head|);
      assert FirstCharUnique([c]);
      assert !Contains(s[0..|head|], [c]);
      PieceEndsAtOccurrence(s, [c], 0, |head|);
    }
  }

  // ---------------------------------------------------------------------
  // trim

  /** The characters `trim` removes: ECMAScript's WhiteSpace and
      LineTerminator code points. */
  predicate IsWhitespace(c: char) {
    c == '\t' || c == '\n' || c == '\U{000B}' || c == '\U{000C}' || c == '\r' || c == ' '
    || c == '\U{00A0}' || c == '\U{1680}' || ('\U{2000}' <= c <= '\U{200A}')
    || c == '\U{2028}' || c == '\U{2029}' || c == '\U{202F}' || c == '\U{205F}'
    || c == '\U{3000}' || c == '\U{FEFF}'
  }

  predicate AllWhitespace(s: string) {
    forall i :: 0 <= i < |s| ==> IsWhitespace(s[i])
  }

  /** Neither the first nor the last character is whitespace. */
  predicate NoEdgeWhitespace(s: string) {
    s == [] || (!IsWhitespace(s[0]) && !IsWhitespace(s[|s| - 1]))
  }

  /** The first position at or after `i` that is not whitespace (or the end). */
  function SkipForward(s: string, i: nat): (r: nat)
    requires i <= |s|
    decreases |s| - i
    ensures i <= r <= |s| && (r < |s| ==> !IsWhitespace(s[r]))
    ensures forall k :: i <= k < r ==> IsWhitespace(s[k])
  {
    if i < |s| && IsWhitespace(s[i]) then SkipForward(s, i + 1) else i
  }

  /** The position just past the last non-whitespace character before `j`,
      but not below `lo`. */
  function SkipBackward(s: string, lo: nat, j: nat): (r: nat)
    requires lo <= j <= |s|
    decreases j
    ensures lo <= r <= j && (r > lo ==> !IsWhitespace(s[r - 1]))
    ensures forall k :: r <= k < j ==> IsWhitespace(s[k])
  {
    if j > lo && IsWhitespace(s[j - 1]) then SkipBackward(s, lo, j - 1) else j
  }

  /** `s.trim()`: the text between the leading and the trailing whitespace. */
  function Trim(s: string): (r: string)
    ensures NoEdgeWhitespace(r)
  {
    var a := SkipForward(s, 0);
    s[a..SkipBackward(s, a, |s|)]
  }

  /** Trim keeps a contiguous slice of `s` and drops only whitespace around it. */
  lemma TrimSlice(s: string) returns (a: nat, b: nat)
    ensures a <= b <= |s| && Trim(s) == s[a..b]
    ensures AllWhitespace(s[..a]) && AllWhitespace(s[b..])
  {
    a := SkipForward(s, 0);
    b := SkipBackward(s, a, |s|);
    assert forall k :: 0 <= k < a ==> s[..a][k] == s[k];
    assert forall k :: 0 <= k < |s| - b ==> s[b..][k] == s[b + k];
  }

  /** Trim is determined by what it keeps: whitespace, then a core without
      edge whitespace, then whitespace, trims to exactly that core. */
  lemma TrimUnique(w1: string, core: string, w2: string)
    requires AllWhitespace(w1) && AllWhitespace(w2) && NoEdgeWhitespace(core)
    ensures Trim(w1 + core + w2) == core
  {
    var s := w1 + core + w2;
    var i, j := |w1|, |w1| + |core|;
    assert forall k :: 0 <= k < i ==> s[k] == w1[k];
    assert forall k :: j <= k < |s| ==> s[k] == w2[k - j];
    var a := SkipForward(s, 0);
    if core == [] {
      assert a == |s|;
    } else {
      assert s[i] == core[0] && s[j - 1] == core[|core| - 1];
      assert a == i;
      assert SkipBackward(s, a, |s|) == j;
      assert s[i..j] == core;
    }
  }

  /** A text of whitespace only trims to the empty string. */
  lemma TrimAllWhitespace(s: string)
    requires AllWhitespace(s)
    ensures Trim(s) == []
  {
    assert SkipForward(s, 0) == |s|;
  }

  /** Trimming twice is trimming once. */
  lemma TrimIdempotent(s: string)
    ensures Trim(Trim(s)) == Trim(s)
  {
    var t := Trim(s);
    TrimUnique([], t, []);
    assert [] + t + [] == t;
  }

  /** Trim never introduces an occurrence of a separator. */
  lemma TrimKeepsFree(s: string, sep: string)
    requires !Contains(s, sep)
    ensures !Contains(Trim(s), sep)
  {
    var a, b := TrimSlice(s);
    forall m: nat | OccursAt(s[a..b], sep, m) ensures false {
      OccursInSlice(s, sep, a, b, m);
    }
  }
}
