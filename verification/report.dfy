/** The data model of the report filter: the whitelist read from JSON and
    the test-suite report read from XML. The `XMLName` fields of the XML
    structures only steer the XML library and are not modelled. */
module Report {

  /** One accepted finding. `details` is free text and never used for matching. */
  datatype Issue = Issue(details: string, file: string, code: string)

  datatype Whitelist = Whitelist(issues: seq<Issue>)

  /** `text` is the inner XML of the failure element, which is what the
      matching reads; `message` is the attribute, which it never reads. */
  datatype Failure = Failure(message: string, text: string)

  datatype Testcase = Testcase(name: string, failure: Failure)

  /** `tests` is the declared number of test cases, as parsed (so any int). */
  datatype Testsuite = Testsuite(name: string, tests: int, testcases: seq<Testcase>)

  datatype XMLReport = XMLReport(testsuites: seq<Testsuite>)
}
