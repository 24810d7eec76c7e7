/** Go's `strings.Index`, `strings.Split` and `strings.Join` for a non-empty
    separator, over strings as sequences of characters. */
module Strings {

  import opened Options

  /** `sep` occurs in `s` starting at index `i`. */
  predicate OccursAt(s: string, sep: string, i: nat) {
    i + |sep| <= |s| && s[i..i + |sep|] == sep
  }

  predicate Contains(s: string, sep: string) {
    exists i: nat | i <= |s| :: OccursAt(s, sep, i)
  }

  /** The first occurrence of `sep` in `s` at or after index `k`. */
  function IndexFrom(s: string, sep: string, k: nat): (r: Option<nat>)
    requires k <= |s|
    ensures r.Some? ==> k <= r.value <= |s| && OccursAt(s, sep, r.value)
    ensures forall j: nat :: k <= j && (r.None? || j < r.value) ==> !OccursAt(s, sep, j)
    decreases |s| - k
  {
    if OccursAt(s, sep, k) then Some(k)
    else if k == |s| then None
    else IndexFrom(s, sep, k + 1)
  }

  /** Go's `strings.Index`: the leftmost occurrence, or None for Go's -1. */
  function IndexOf(s: string, sep: string): (r: Option<nat>)
    ensures r.Some? <==> Contains(s, sep)
    ensures r.Some? ==> OccursAt(s, sep, r.value)
    ensures r.Some? ==> forall j: nat :: j < r.value ==> !OccursAt(s, sep, j)
  {
    IndexFrom(s, sep, 0)
  }

  /** Go's `strings.Join`. */
  function Join(parts: seq<string>, sep: string): string {
    if |parts| == 0 then ""
    else if |parts| == 1 then parts[0]
    else parts[0] + sep + Join(parts[1..], sep)
  }

  /** An occurrence inside a prefix of `s` is an occurrence in `s`. */
  lemma OccursInPrefix(s: string, sep: string, n: nat, j: nat)
    requires n <= |s|
    requires OccursAt(s[..n], sep, j)
    ensures OccursAt(s, sep, j) && j + |sep| <= n
  {
    assert s[..n][j..j + |sep|] == s[j..j + |sep|];
  }

  /** Go's `strings.Split` for a non-empty separator: the pieces between the
      leftmost non-overlapping occurrences of `sep`. */
  function Split(s: string, sep: string): (parts: seq<string>)
    requires |sep| > 0
    ensures |parts| >= 1
    ensures |parts| > 1 <==> Contains(s, sep)
    ensures forall k | 0 <= k < |parts| :: !Contains(parts[k], sep)
    ensures parts[0] <= s && (|parts[0]| == |s| || OccursAt(s, sep, |parts[0]|))
    ensures Contains(s, sep) ==> parts[0] == s[..IndexOf(s, sep).value]
    decreases |s|
  {
    match IndexOf(s, sep)
    case None => [s]
    case Some(i) =>
      var head := s[..i];
      var rest := Split(s[i + |sep|..], sep);
      assert !Contains(head, sep) by {
        forall j: nat | j <= |head| && OccursAt(head, sep, j)
          ensures false
        {
          OccursInPrefix(s, sep, i, j);
        }
      }
      [head] + rest
  }

  /** A text holding the separator splits into the piece before its first
      occurrence followed by the pieces of the rest. */
  lemma SplitAt(s: string, sep: string)
    requires |sep| > 0
    requires Contains(s, sep)
    ensures
      var i := IndexOf(s, sep).value;
      Split(s, sep) == [s[..i]] + Split(s[i + |sep|..], sep)
  {
  }

  /** A prefix of the suffix of `s` from `a` that ends at `sep` or at the
      end, seen from `s` itself. */
  lemma PrefixOfSuffix(s: string, sep: string, a: nat, c: string)
    requires a <= |s|
    requires c <= s[a..]
    requires |c| == |s| - a || OccursAt(s[a..], sep, |c|)
    ensures a + |c| <= |s| && s[a..a + |c|] == c
    ensures a + |c| == |s| || OccursAt(s, sep, a + |c|)
  {
    assert s[a..][..|c|] == s[a..a + |c|];
    if a + |c| < |s| {
      assert s[a..][|c|..|c| + |sep|] == s[a + |c|..a + |c| + |sep|];
    }
  }

  /** Joining the pieces of a split with the separator gives the text back. */
  lemma {:induction false} JoinSplit(s: string, sep: string)
    requires |sep| > 0
    ensures Join(Split(s, sep), sep) == s
    decreases |s|
  {
    if Contains(s, sep) {
      var i := IndexOf(s, sep).value;
      var head, rest := s[..i], s[i + |sep|..];
      SplitAt(s, sep);
      var parts := Split(s, sep);
      assert parts[0] == head && parts[1..] == Split(rest, sep);
      JoinSplit(rest, sep);
      assert Join(parts, sep) == head + sep + rest;
      assert s[i..i + |sep|] == sep;
      assert s == head + s[i..i + |sep|] + rest;
    } else {
      assert Split(s, sep) == [s];
    }
  }
}
