/** The filtering engine as the program runs it: loops over the whitelist,
    the test cases and the suites, with the panic of `retrieveCode` surfaced
    as None (gas-report-filter.go:100-131, 148). */
module Engine {

  import opened Options
  import opened Report
  import opened Code
  import opened Membership
  import opened SeqFilter
  import opened FilterSpec
  import opened FilterLemmas

  /** `removeWhitelistedIssues`: keeps, in order, each test case that the
      whitelist does not list under its name and code. It fails exactly when
      some test case's failure text has no separator. */
  method RemoveWhitelistedIssues(w: Whitelist, cs: seq<Testcase>) returns (r: Option<seq<Testcase>>)
    ensures r.None? <==> !AllWellFormed(cs)
    ensures r.Some? ==> r.value == Kept(w, cs)
  {
    var kept: seq<Testcase> := [];
    for i := 0 to |cs|
      invariant AllWellFormed(cs[..i])
      invariant kept == Kept(w, cs[..i])
    {
      var code := RetrieveCode(cs[i].failure.text);
      if code.None? {
        assert cs[i] in cs && !WellFormed(cs[i]);
        return None;
      }
      var listed := IsInWhitelist(w, cs[i].name, code.value);
      ListedMeansExempt(w, cs[i], code.value, listed);
      KeptSnoc(w, cs[..i], cs[i]);
      PrefixSnoc(cs, i);
      if !listed {
        kept := kept + [cs[i]];
      }
    }
    assert cs[..|cs|] == cs;
    return Some(kept);
  }

  /** A test case whose code the whitelist lists under its name is exempt,
      and only then. */
  lemma ListedMeansExempt(w: Whitelist, tc: Testcase, code: string, listed: bool)
    requires RetrieveCode(tc.failure.text) == Some(code)
    requires listed <==> Listed(w, tc.name, code)
    ensures WellFormed(tc)
    ensures Exempt(w, tc) <==> listed
  {
  }

  /** `getWhitelistedTestsuites`: filters each suite's test cases, drops the
      suites left empty and sets the declared count of the others. It fails
      exactly when some test case of some suite has no separator. */
  method GetWhitelistedTestsuites(w: Whitelist, ss: seq<Testsuite>) returns (r: Option<seq<Testsuite>>)
    ensures r.None? <==> !SuitesWellFormed(ss)
    ensures r.Some? ==> r.value == Surviving(w, ss)
  {
    var survivors: seq<Testsuite> := [];
    for i := 0 to |ss|
      invariant SuitesWellFormed(ss[..i])
      invariant survivors == Surviving(w, ss[..i])
    {
      var kept := RemoveWhitelistedIssues(w, ss[i].testcases);
      if kept.None? {
        assert ss[i] in ss;
        return None;
      }
      SurvivingSnoc(w, ss[..i], ss[i]);
      PrefixSnoc(ss, i);
      if |kept.value| != 0 {
        survivors := survivors + [ss[i].(testcases := kept.value, tests := |kept.value|)];
      }
    }
    assert ss[..|ss|] == ss;
    return Some(survivors);
  }

  /** The rewrite of the report's suites that `main` performs (line 148). */
  function FilterReport(w: Whitelist, report: XMLReport): Option<XMLReport> {
    if SuitesWellFormed(report.testsuites) then
      Some(report.(testsuites := Surviving(w, report.testsuites)))
    else
      None
  }

  /** `main`'s rewrite, run with the loops above, computes FilterReport. */
  method FilterReportRun(w: Whitelist, report: XMLReport) returns (r: Option<XMLReport>)
    ensures r == FilterReport(w, report)
  {
    var suites := GetWhitelistedTestsuites(w, report.testsuites);
    if suites.None? {
      return None;
    }
    return Some(report.(testsuites := suites.value));
  }

  /** The surviving suites hold only input test cases, so they can be
      filtered again without a panic. */
  lemma SurvivingWellFormed(w: Whitelist, ss: seq<Testsuite>)
    requires SuitesWellFormed(ss)
    ensures SuitesWellFormed(Surviving(w, ss))
  {
    forall t | t in Surviving(w, ss)
      ensures AllWellFormed(t.testcases)
    {
      var m := Map(RefilterWith(w), ss);
      assert t in m;
      var i :| 0 <= i < |m| && m[i] == t;
      assert ss[i] in ss;
    }
  }

  /** Filtering a filtered report with the same whitelist succeeds and gives
      the same report. */
  lemma FilterReportIdempotent(w: Whitelist, report: XMLReport)
    requires FilterReport(w, report).Some?
    ensures FilterReport(w, FilterReport(w, report).value) == FilterReport(w, report)
  {
    SurvivingWellFormed(w, report.testsuites);
    SurvivingIdempotent(w, report.testsuites);
  }
}
