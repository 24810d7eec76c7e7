/** Two sample scenarios: one group with two findings in the same file,
    filtered by a whitelist that accepts one of them, then both. */
module Examples {

  import opened Options
  import opened Strings
  import opened Report
  import opened Code
  import opened FilterSpec
  import opened SeqFilter
  import opened Engine

  const File := "pkg/foo.go"
  const TextA := "Potential hardcoded credentials - > G101"
  const TextB := "Errors unhandled - > G104"
  const CaseA := Testcase(File, Failure(TextA, TextA))
  const CaseB := Testcase(File, Failure(TextB, TextB))
  const Input := XMLReport([Testsuite(File, 2, [CaseA, CaseB])])

  const AcceptG101 := Issue("hardcoded test credentials", File, "G101")
  const AcceptG104 := Issue("errors checked by caller", File, "G104")

  /** A text made of a `'>'`-free description, `"> "` and a `'>'`-free
      code yields that code. */
  lemma CodeAfterDescription(text: string, description: string, code: string)
    requires '>' !in description && '>' !in code
    requires text == description + Sep + code
    ensures RetrieveCode(text) == Some(code)
  {
    var parts := [description, code];
    NoSepWithoutGt(description);
    NoSepWithoutGt(code);
    assert Join(parts, Sep) == text;
    RetrieveCodeOfJoin(parts);
  }

  /** The code of the first finding is G101. */
  lemma CodeOfTextA()
    ensures RetrieveCode(TextA) == Some("G101")
  {
    var d := "Potential hardcoded credentials - ";
    assert '>' !in d && '>' !in "G101";
    assert TextA == d + Sep + "G101";
    CodeAfterDescription(TextA, d, "G101");
  }

  /** The code of the second finding is G104. */
  lemma CodeOfTextB()
    ensures RetrieveCode(TextB) == Some("G104")
  {
    var d := "Errors unhandled - ";
    assert '>' !in d && '>' !in "G104";
    assert TextB == d + Sep + "G104";
    CodeAfterDescription(TextB, d, "G104");
  }

  /** Accepting G101 leaves the group with the G104 finding and a count of
      1, for any two failure texts carrying the codes G101 and G104. */
  lemma OneAccepted(a: Testcase, b: Testcase)
    requires a.name == File && RetrieveCode(a.failure.text) == Some("G101")
    requires b.name == File && RetrieveCode(b.failure.text) == Some("G104")
    ensures FilterReport(Whitelist([AcceptG101]), XMLReport([Testsuite(File, 2, [a, b])]))
         == Some(XMLReport([Testsuite(File, 1, [b])]))
  {
    var w := Whitelist([AcceptG101]);
    assert w.issues[0].file == File && w.issues[0].code == "G101";
    assert Exempt(w, a) && !Exempt(w, b);
    var cs := [a, b];
    assert AllWellFormed(cs);
    assert Kept(w, cs) == [b] by {
      assert cs[1..] == [b];
      assert Filter([b], NotExempt(w)) == [b] + Filter([], NotExempt(w));
    }
    var s := Testsuite(File, 2, cs);
    var kept := Testsuite(File, 1, [b]);
    assert Refiltered(w, s) == kept;
    assert Map(RefilterWith(w), [s]) == [kept];
    assert Filter([kept], HasCases) == [kept] + Filter([], HasCases);
    assert SuitesWellFormed([s]);
    assert Surviving(w, [s]) == [kept];
  }

  /** Accepting both codes empties the group, so the report has no group. */
  lemma BothAccepted(a: Testcase, b: Testcase)
    requires a.name == File && RetrieveCode(a.failure.text) == Some("G101")
    requires b.name == File && RetrieveCode(b.failure.text) == Some("G104")
    ensures FilterReport(Whitelist([AcceptG101, AcceptG104]), XMLReport([Testsuite(File, 2, [a, b])]))
         == Some(XMLReport([]))
  {
    var w := Whitelist([AcceptG101, AcceptG104]);
    assert w.issues[0].file == File && w.issues[0].code == "G101";
    assert w.issues[1].file == File && w.issues[1].code == "G104";
    assert Exempt(w, a) && Exempt(w, b);
    var cs := [a, b];
    assert AllWellFormed(cs);
    assert Kept(w, cs) == [] by {
      assert cs[1..] == [b];
      assert Filter([b], NotExempt(w)) == Filter([], NotExempt(w));
    }
    var s := Testsuite(File, 2, cs);
    var emptied := Testsuite(File, 0, []);
    assert Refiltered(w, s) == emptied;
    assert Map(RefilterWith(w), [s]) == [emptied];
    assert Filter([emptied], HasCases) == Filter([], HasCases);
    assert SuitesWellFormed([s]);
    assert Surviving(w, [s]) == [];
  }

  /** The two sample scenarios on the sample report. */
  lemma ExampleScenarios()
    ensures FilterReport(Whitelist([AcceptG101]), Input)
         == Some(XMLReport([Testsuite(File, 1, [CaseB])]))
    ensures FilterReport(Whitelist([AcceptG101, AcceptG104]), Input) == Some(XMLReport([]))
  {
    CodeOfTextA();
    CodeOfTextB();
    OneAccepted(CaseA, CaseB);
    BothAccepted(CaseA, CaseB);
  }
}
