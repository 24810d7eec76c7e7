/** Extraction of the rule code from a failure text: the text is split on
    `"> "` and the second piece is the code (gas-report-filter.go:95-97). */
module Code {

  import opened Options
  import opened Strings

  const Sep: string := "> "

  /** `code` starts right after the first separator of `text` and runs up
      to the next separator or to the end of `text`. */
  predicate FollowsFirstSep(text: string, code: string) {
    match IndexOf(text, Sep)
    case None => false
    case Some(i) =>
      var start := i + |Sep|;
      && start + |code| <= |text|
      && text[start..start + |code|] == code
      && (start + |code| == |text| || OccursAt(text, Sep, start + |code|))
  }

  /** `retrieveCode`. Go indexes the result of `strings.Split` at 1, which
      panics when the separator is absent; that panic is None here. The code
      is the text between the first `"> "` and the next one (or the end of
      the text), so it never contains the separator itself. */
  function RetrieveCode(text: string): (code: Option<string>)
    ensures code.Some? <==> Contains(text, Sep)
    ensures code.Some? ==> FollowsFirstSep(text, code.value) && !Contains(code.value, Sep)
  {
    var parts := Split(text, Sep);
    if |parts| > 1 then
      SecondPiece(text);
      Some(parts[1])
    else
      None
  }

  /** The second piece of a split is the piece after the first separator. */
  lemma SecondPiece(text: string)
    requires Contains(text, Sep)
    ensures |Split(text, Sep)| > 1
    ensures FollowsFirstSep(text, Split(text, Sep)[1])
  {
    var i := IndexOf(text, Sep).value;
    var tail := text[i + |Sep|..];
    SplitAt(text, Sep);
    var c := Split(tail, Sep)[0];
    assert Split(text, Sep)[1] == c;
    assert c <= tail && (|c| == |tail| || OccursAt(tail, Sep, |c|));
    FollowsFromPrefix(text, i, c);
  }

  /** A prefix of the text after the first separator that ends at a
      separator or at the end is the text that follows the first separator. */
  lemma FollowsFromPrefix(text: string, i: nat, c: string)
    requires IndexOf(text, Sep) == Some(i)
    requires i + |Sep| <= |text|
    requires c <= text[i + |Sep|..]
    requires |c| == |text| - (i + |Sep|) || OccursAt(text[i + |Sep|..], Sep, |c|)
    ensures FollowsFirstSep(text, c)
  {
    PrefixOfSuffix(text, Sep, i + |Sep|, c);
  }

  /** A text with no `'>'` holds no separator. */
  lemma NoSepWithoutGt(s: string)
    requires '>' !in s
    ensures !Contains(s, Sep)
  {
    forall i: nat | i <= |s|
      ensures !OccursAt(s, Sep, i)
    {
      if i + |Sep| <= |s| {
        assert s[i..i + |Sep|][0] == s[i];
      }
    }
  }

  /** In `p + "> " + rest` with `p` free of the separator, the first
      separator is the one right after `p`: an occurrence further left
      would lie inside `p` or start at its last character, whose successor
      is `'>'`, not `' '`. */
  lemma FirstSepAfter(p: string, rest: string)
    requires !Contains(p, Sep)
    ensures IndexOf(p + Sep + rest, Sep) == Some(|p|)
  {
    var s := p + Sep + rest;
    assert OccursAt(s, Sep, |p|) by {
      assert s[|p|..|p| + |Sep|] == Sep;
    }
    forall j: nat | j < |p|
      ensures !OccursAt(s, Sep, j)
    {
      if j + |Sep| <= |p| {
        assert p[j..j + |Sep|] == s[j..j + |Sep|];
        assert !OccursAt(p, Sep, j);
      } else {
        assert s[j + 1] == '>' != Sep[1];
        assert j + |Sep| <= |s| ==> s[j..j + |Sep|][1] == s[j + 1];
      }
    }
  }

  /** Joining separator-free pieces with `"> "` and splitting again gives the
      pieces back. This needs the separator's shape: for a separator such as
      `"aa"` it fails on the pieces `["a", ""]`. */
  lemma {:induction false} SplitJoin(parts: seq<string>)
    requires |parts| >= 1
    requires forall k | 0 <= k < |parts| :: !Contains(parts[k], Sep)
    ensures Split(Join(parts, Sep), Sep) == parts
    decreases |parts|
  {
    var p := parts[0];
    if |parts| == 1 {
      assert Join(parts, Sep) == p;
      assert Split(p, Sep) == [p];
    } else {
      var tail := parts[1..];
      var rest := Join(tail, Sep);
      var s := p + Sep + rest;
      assert Join(parts, Sep) == s;
      FirstSepAfter(p, rest);
      SplitAt(s, Sep);
      assert s[..|p|] == p;
      assert s[|p| + |Sep|..] == rest;
      SplitJoin(tail);
      assert parts == [p] + tail;
    }
  }

  /** The code of a text built as pieces joined by `"> "` is the second piece. */
  lemma RetrieveCodeOfJoin(parts: seq<string>)
    requires |parts| >= 2
    requires forall k | 0 <= k < |parts| :: !Contains(parts[k], Sep)
    ensures RetrieveCode(Join(parts, Sep)) == Some(parts[1])
  {
    SplitJoin(parts);
  }
}
