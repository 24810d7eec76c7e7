/** The filtering engine as pure functions: which test cases survive, and
    which suites survive with which declared counts
    (gas-report-filter.go:110-131). */
module FilterSpec {

  import opened Options
  import opened Strings
  import opened Report
  import opened Code
  import opened Membership
  import opened SeqFilter

  /** The failure text holds the separator, so its code can be extracted;
      the program panics on any other test case. */
  predicate WellFormed(tc: Testcase) {
    Contains(tc.failure.text, Sep)
  }

  predicate AllWellFormed(cs: seq<Testcase>) {
    forall tc | tc in cs :: WellFormed(tc)
  }

  predicate SuitesWellFormed(ss: seq<Testsuite>) {
    forall s | s in ss :: AllWellFormed(s.testcases)
  }

  /** The whitelist lists the test case's name together with its code. A
      test case without a code is never exempt here; the program never gets
      that far with one. */
  predicate Exempt(w: Whitelist, tc: Testcase) {
    match RetrieveCode(tc.failure.text)
    case Some(code) => Listed(w, tc.name, code)
    case None => false
  }

  function NotExempt(w: Whitelist): Testcase -> bool {
    tc => !Exempt(w, tc)
  }

  /** The test cases that are not exempt, in their original order. */
  function Kept(w: Whitelist, cs: seq<Testcase>): seq<Testcase> {
    Filter(cs, NotExempt(w))
  }

  /** A suite with its test cases filtered and its declared count
      recomputed; its name is untouched. */
  function Refiltered(w: Whitelist, s: Testsuite): Testsuite {
    var kept := Kept(w, s.testcases);
    s.(testcases := kept, tests := |kept|)
  }

  function RefilterWith(w: Whitelist): Testsuite -> Testsuite {
    s => Refiltered(w, s)
  }

  predicate HasCases(s: Testsuite) {
    |s.testcases| > 0
  }

  /** The refiltered suites that still hold a test case, in their original
      order. */
  function Surviving(w: Whitelist, ss: seq<Testsuite>): seq<Testsuite> {
    Filter(Map(RefilterWith(w), ss), HasCases)
  }
}
