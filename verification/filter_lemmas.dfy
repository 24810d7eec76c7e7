/** What the filtering engine promises: exactly the non-exempt test cases
    survive, in order; every surviving suite is non-empty with a correct
    count; filtering twice is filtering once; an empty whitelist removes
    nothing. */
module FilterLemmas {

  import opened Report
  import opened SeqFilter
  import opened FilterSpec

  /** A test case survives exactly when it is an input case that is not
      exempt. */
  lemma KeptMembers(w: Whitelist, cs: seq<Testcase>, tc: Testcase)
    ensures tc in Kept(w, cs) <==> tc in cs && !Exempt(w, tc)
  {
    FilterMembers(cs, NotExempt(w), tc);
  }

  /** The surviving test cases are the input's, unchanged and in order, and
      there are as many as there are non-exempt input cases. */
  lemma KeptOrder(w: Whitelist, cs: seq<Testcase>)
    ensures IsSubsequence(Kept(w, cs), cs)
    ensures |Kept(w, cs)| == Count(cs, NotExempt(w))
  {
    FilterIsSubsequence(cs, NotExempt(w));
  }

  /** Every surviving suite holds a test case and declares exactly as many
      tests as it holds; there are never more suites than before. */
  lemma SurvivingCounts(w: Whitelist, ss: seq<Testsuite>)
    ensures |Surviving(w, ss)| <= |ss|
    ensures forall t | t in Surviving(w, ss) :: |t.testcases| > 0 && t.tests == |t.testcases|
  {
    forall t | t in Surviving(w, ss)
      ensures |t.testcases| > 0 && t.tests == |t.testcases|
    {
      var m := Map(RefilterWith(w), ss);
      assert t in m;
      var i :| 0 <= i < |m| && m[i] == t;
      assert t == Refiltered(w, ss[i]);
    }
  }

  /** Each surviving suite comes from an input suite whose name it keeps and
      whose test cases it filters; only its cases and count change. */
  lemma SurvivingOrigin(w: Whitelist, ss: seq<Testsuite>, t: Testsuite)
    requires t in Surviving(w, ss)
    ensures exists s | s in ss ::
      && t.name == s.name
      && t.testcases == Kept(w, s.testcases)
      && t.tests == |t.testcases|
  {
    var m := Map(RefilterWith(w), ss);
    assert t in m;
    var i :| 0 <= i < |m| && m[i] == t;
    assert ss[i] in ss;
  }

  /** A suite's refiltered form survives exactly when one of its test cases
      survives; a suite whose cases are all exempt does not appear. */
  lemma SurvivingMembers(w: Whitelist, ss: seq<Testsuite>, s: Testsuite)
    requires s in ss
    ensures Refiltered(w, s) in Surviving(w, ss) <==> |Kept(w, s.testcases)| > 0
  {
    var m := Map(RefilterWith(w), ss);
    var i :| 0 <= i < |ss| && ss[i] == s;
    assert m[i] == Refiltered(w, s);
    FilterMembers(m, HasCases, Refiltered(w, s));
  }

  /** The surviving suites are refiltered input suites, kept in their
      original order, one for each input suite that keeps a test case. */
  lemma SurvivingOrder(w: Whitelist, ss: seq<Testsuite>)
    ensures IsSubsequence(Surviving(w, ss), Map(RefilterWith(w), ss))
    ensures |Surviving(w, ss)| == Count(Map(RefilterWith(w), ss), HasCases)
  {
    FilterIsSubsequence(Map(RefilterWith(w), ss), HasCases);
  }

  /** Filtering one more test case appends it exactly when it is not exempt. */
  lemma KeptSnoc(w: Whitelist, cs: seq<Testcase>, tc: Testcase)
    ensures Kept(w, cs + [tc]) == Kept(w, cs) + (if Exempt(w, tc) then [] else [tc])
  {
    FilterSnoc(cs, tc, NotExempt(w));
  }

  /** Filtering one more suite appends its refiltered form exactly when a
      test case of it survives. */
  lemma SurvivingSnoc(w: Whitelist, ss: seq<Testsuite>, s: Testsuite)
    ensures Surviving(w, ss + [s])
         == Surviving(w, ss) + (if |Kept(w, s.testcases)| == 0 then [] else [Refiltered(w, s)])
  {
    var f := RefilterWith(w);
    MapSnoc(f, ss, s);
    FilterSnoc(Map(f, ss), f(s), HasCases);
  }

  /** Filtering kept test cases again removes nothing. */
  lemma KeptIdempotent(w: Whitelist, cs: seq<Testcase>)
    ensures Kept(w, Kept(w, cs)) == Kept(w, cs)
  {
    FilterIdempotent(cs, NotExempt(w));
  }

  /** Filtering the surviving suites again changes nothing. */
  lemma SurvivingIdempotent(w: Whitelist, ss: seq<Testsuite>)
    ensures Surviving(w, Surviving(w, ss)) == Surviving(w, ss)
  {
    var f := RefilterWith(w);
    var r := Surviving(w, ss);
    forall t | t in r
      ensures f(t) == t
    {
      var m := Map(f, ss);
      assert t in m;
      var i :| 0 <= i < |m| && m[i] == t;
      KeptIdempotent(w, ss[i].testcases);
    }
    MapFixed(f, r);
    FilterKeepsAll(r, HasCases);
  }

  /** With an empty whitelist no test case is removed. */
  lemma KeptNoIssues(w: Whitelist, cs: seq<Testcase>)
    requires |w.issues| == 0
    ensures Kept(w, cs) == cs
  {
    FilterKeepsAll(cs, NotExempt(w));
  }

  /** With an empty whitelist, suites that are non-empty and whose declared
      counts are already right pass through unchanged. */
  lemma SurvivingNoIssues(w: Whitelist, ss: seq<Testsuite>)
    requires |w.issues| == 0
    requires forall s | s in ss :: |s.testcases| > 0 && s.tests == |s.testcases|
    ensures Surviving(w, ss) == ss
  {
    var f := RefilterWith(w);
    forall s | s in ss
      ensures f(s) == s
    {
      KeptNoIssues(w, s.testcases);
    }
    MapFixed(f, ss);
    FilterKeepsAll(ss, HasCases);
  }
}
