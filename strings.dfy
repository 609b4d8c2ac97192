/**
 * The functions of Go's `strings` package that the chain engine calls,
 * on strings as sequences of characters.
 */
module GoStrings {

  /** `strings.HasPrefix(s, t)` */
  predicate HasPrefix(s: string, t: string)
  {
    |t| <= |s| && s[..|t|] == t
  }

  /** `strings.HasSuffix(s, t)` */
  predicate HasSuffix(s: string, t: string)
  {
    |t| <= |s| && s[|s| - |t|..] == t
  }

  /** `t` occurs in `s` starting at index `i`. */
  predicate OccursAt(s: string, t: string, i: nat)
  {
    i + |t| <= |s| && s[i..i + |t|] == t
  }

  /** `strings.TrimPrefix(s, t)`: drops one leading `t`, if there is one. */
  function TrimPrefix(s: string, t: string): (r: string)
    ensures |r| <= |s|
    ensures !HasPrefix(s, t) ==> r == s
  {
    if HasPrefix(s, t) then s[|t|..] else s
  }

  /** A leading `t` is dropped exactly. */
  lemma TrimPrefixDrops(s: string, t: string)
    ensures HasPrefix(s, t) ==> s == t + TrimPrefix(s, t)
  {
    if HasPrefix(s, t) {
      assert s == s[..|t|] + s[|t|..];
    }
  }

  /** `strings.TrimSuffix(s, t)`: drops one trailing `t`, if there is one. */
  function TrimSuffix(s: string, t: string): (r: string)
    ensures |r| <= |s|
    ensures !HasSuffix(s, t) ==> r == s
  {
    if HasSuffix(s, t) then s[..|s| - |t|] else s
  }

  /** A trailing `t` is dropped exactly. */
  lemma TrimSuffixDrops(s: string, t: string)
    ensures HasSuffix(s, t) ==> s == TrimSuffix(s, t) + t
  {
    if HasSuffix(s, t) {
      assert s == s[..|s| - |t|] + s[|s| - |t|..];
    }
  }

  /** `unicode.IsSpace`: the characters with the Unicode White_Space property. */
  predicate IsSpace(ch: char)
  {
    ('\t' <= ch <= '\r') || ch == ' ' || ch == '\U{85}' || ch == '\U{A0}'
    || ch == '\U{1680}' || ('\U{2000}' <= ch <= '\U{200A}')
    || ch == '\U{2028}' || ch == '\U{2029}' || ch == '\U{202F}'
    || ch == '\U{205F}' || ch == '\U{3000}'
  }

  /** The first index at or after `i` that does not hold white space, or `|s|`. */
  function SpanStart(s: string, i: nat): (j: nat)
    requires i <= |s|
    ensures i <= j <= |s|
    decreases |s| - i
  {
    if i < |s| && IsSpace(s[i]) then SpanStart(s, i + 1) else i
  }

  /** `SpanStart` skips exactly a run of white space. */
  lemma {:induction false} SpanStartSkipsSpace(s: string, i: nat)
    requires i <= |s|
    ensures var j := SpanStart(s, i);
      (forall k :: i <= k < j ==> IsSpace(s[k])) && (j == |s| || !IsSpace(s[j]))
    decreases |s| - i
  {
    if i < |s| && IsSpace(s[i]) {
      SpanStartSkipsSpace(s, i + 1);
    }
  }

  /** The end, at most `j` and at least `lo`, of `s[lo..j]` without its trailing white space. */
  function SpanStop(s: string, lo: nat, j: nat): (k: nat)
    requires lo <= j <= |s|
    ensures lo <= k <= j
    decreases j
  {
    if j > lo && IsSpace(s[j - 1]) then SpanStop(s, lo, j - 1) else j
  }

  /** `SpanStop` skips exactly a run of white space, backwards. */
  lemma {:induction false} SpanStopSkipsSpace(s: string, lo: nat, j: nat)
    requires lo <= j <= |s|
    ensures var k := SpanStop(s, lo, j);
      (forall m :: k <= m < j ==> IsSpace(s[m])) && (k == lo || !IsSpace(s[k - 1]))
    decreases j
  {
    if j > lo && IsSpace(s[j - 1]) {
      SpanStopSkipsSpace(s, lo, j - 1);
    }
  }

  /** `strings.TrimSpace(s)`: the slice from the first to just after the last non-space character. */
  function TrimSpace(s: string): (r: string)
    ensures |r| <= |s|
  {
    var start := SpanStart(s, 0);
    s[start..SpanStop(s, start, |s|)]
  }

  /**
   * `TrimSpace` leaves the part of `s` between a run of white space at the
   * front and a run at the back, and that part neither starts nor ends
   * with white space.
   */
  lemma TrimSpaceMiddle(s: string)
    ensures var r := TrimSpace(s);
      var i := SpanStart(s, 0);
      i + |r| <= |s| && r == s[i..i + |r|]
      && (forall k :: 0 <= k < i ==> IsSpace(s[k]))
      && (forall k :: i + |r| <= k < |s| ==> IsSpace(s[k]))
      && (r == [] || (!IsSpace(r[0]) && !IsSpace(r[|r| - 1])))
  {
    var i := SpanStart(s, 0);
    var stop := SpanStop(s, i, |s|);
    SpanStartSkipsSpace(s, 0);
    SpanStopSkipsSpace(s, i, |s|);
    var r := TrimSpace(s);
    assert r == s[i..stop] && |r| == stop - i;
    if r != [] {
      assert r[0] == s[i] && r[|r| - 1] == s[stop - 1];
    }
  }

  /**
   * Text that starts and ends with something other than white space, with
   * only white space after it, is what `TrimSpace` gives back.
   */
  lemma TrimSpaceOfPadded(s: string, n: nat)
    requires 0 < n <= |s| && !IsSpace(s[0]) && !IsSpace(s[n - 1])
    requires forall k :: n <= k < |s| ==> IsSpace(s[k])
    ensures TrimSpace(s) == s[..n]
  {
    TrimSpaceMiddle(s);
  }

  /**
   * Text between a run of white space in front and a run behind, which
   * itself starts and ends with something else, is what `TrimSpace`
   * gives back.
   */
  lemma TrimSpaceBetween(s: string, i: nat, n: nat)
    requires i < n <= |s| && !IsSpace(s[i]) && !IsSpace(s[n - 1])
    requires forall k :: 0 <= k < i ==> IsSpace(s[k])
    requires forall k :: n <= k < |s| ==> IsSpace(s[k])
    ensures TrimSpace(s) == s[i..n]
  {
    TrimSpaceMiddle(s);
  }

  /**
   * `strings.Index(s[i:], t)` shifted by `i`: the first position at or
   * after `i` where `t` occurs, or -1 when there is none.
   */
  function IndexFrom(s: string, t: string, i: nat): (j: int)
    ensures j == -1 || (i <= j && j + |t| <= |s|)
    decreases |s| - i
  {
    if i + |t| > |s| then -1
    else if OccursAt(s, t, i) then i
    else IndexFrom(s, t, i + 1)
  }

  /** `strings.Index(s, t)`: an empty `t` is found at 0. */
  function Index(s: string, t: string): (j: int)
    ensures j == -1 || (0 <= j && j + |t| <= |s|)
  {
    IndexFrom(s, t, 0)
  }

  /** A position found is an occurrence, and no earlier position from `i` on is one. */
  lemma {:induction false} IndexFromFirst(s: string, t: string, i: nat)
    ensures var j := IndexFrom(s, t, i);
      (j != -1 ==> OccursAt(s, t, j)) &&
      (forall k :: i <= k && (j == -1 || k < j) ==> !OccursAt(s, t, k))
    decreases |s| - i
  {
    if i + |t| <= |s| && !OccursAt(s, t, i) {
      IndexFromFirst(s, t, i + 1);
    }
  }

  /**
   * `strings.Replace(s, t, "", 1)`: removes the first occurrence of `t`.
   * An empty `t` matches at the start and removes nothing.
   */
  function RemoveFirst(s: string, t: string): (r: string)
    ensures r == s || |r| + |t| == |s|
  {
    var i := Index(s, t);
    if i == -1 then s else s[..i] + s[i + |t|..]
  }

  /** Where `t` first occurs, `RemoveFirst` splices it out. */
  lemma RemoveFirstAtFirstOccurrence(s: string, t: string, i: nat)
    requires OccursAt(s, t, i)
    requires forall j :: 0 <= j < i ==> !OccursAt(s, t, j)
    ensures RemoveFirst(s, t) == s[..i] + s[i + |t|..]
  {
    IndexFromFirst(s, t, 0);
    var j := Index(s, t);
    assert j != -1 && !(j < i) && !(i < j);
  }

  /** Where `t` does not occur, `RemoveFirst` changes nothing. */
  lemma RemoveFirstAbsent(s: string, t: string)
    requires forall j :: 0 <= j <= |s| ==> !OccursAt(s, t, j)
    ensures RemoveFirst(s, t) == s
  {
    IndexFromFirst(s, t, 0);
  }

  /** `m` does not occur in `p + m` before its occurrence at the end. */
  predicate OnlyAtEnd(p: string, m: string)
  {
    forall j :: 0 <= j < |p| ==> !OccursAt(p + m, m, j)
  }

  /** Removing the first occurrence of a message that only occurs at the end leaves the front. */
  lemma RemoveFirstOfSuffix(p: string, m: string)
    requires OnlyAtEnd(p, m)
    ensures RemoveFirst(p + m, m) == p
  {
    assert (p + m)[|p|..|p| + |m|] == m;
    RemoveFirstAtFirstOccurrence(p + m, m, |p|);
    assert (p + m)[..|p|] == p;
  }
}
