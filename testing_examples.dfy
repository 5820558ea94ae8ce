/** Worked AR6 file names, for pathways whose names hold slashes and spaces. */
module TestingExamples {

  import opened Testing

  /** An AR6 illustrative pathway whose model name holds a slash and a space. */
  lemma EmissionsFileNameExample()
    ensures EmissionsFileName("AIM/CGE 2.2", "EN_NPi2020_900f")
            == "ar6_scenarios__" + "AIM_CGE_2.2" + "__" + "EN_NPi2020_900f" + "__emissions.csv"
  {
    SanitiseSlashAndSpaceExample();
    SanitiseCleanExample();
  }

  /** A scenario name without slashes or spaces is kept as it is. */
  lemma SanitiseCleanExample()
    ensures Sanitise("EN_NPi2020_900f") == "EN_NPi2020_900f"
  {
    SanitiseClean("EN_NPi2020_900f");
  }

  /** Both the slash and the space of that model name become underscores. */
  lemma SanitiseSlashAndSpaceExample()
    ensures Sanitise("AIM/CGE 2.2") == "AIM_CGE_2.2"
  {
    var a, b, c := "AIM", "CGE", "2.2";
    var x, y := a + ['/'] + b, [' '] + c;
    assert "AIM/CGE 2.2" == x + y;
    SanitiseJoin(a, '/', b);
    SanitiseJoin([], ' ', c);
    assert [] + [' '] + c == y;
    SanitiseConcat(x, y);
    assert a + ['_'] + b + ([] + ['_'] + c) == "AIM_CGE_2.2";
  }

  /** Sanitising the model name of another AR6 illustrative pathway. */
  lemma SanitiseModelExample()
    ensures Sanitise("REMIND-MAgPIE 2.1-4.3") == "REMIND-MAgPIE_2.1-4.3"
  {
    SanitiseOneSpace("REMIND-MAgPIE 2.1-4.3", "REMIND-MAgPIE", "2.1-4.3", "REMIND-MAgPIE_2.1-4.3");
  }

  /** A name made of two clean parts around one space. */
  lemma SanitiseOneSpace(s: string, a: string, b: string, t: string)
    requires forall c :: c in "/ " ==> c !in a && c !in b
    requires s == a + [' '] + b && t == a + ['_'] + b
    ensures Sanitise(s) == t
  {
    assert '/' in "/ " && ' ' in "/ ";
    SanitiseJoin(a, ' ', b);
  }

  /** Sanitising its scenario name: the space sits next to an underscore, so
      the sanitised scenario holds `__`, the separator the file names use. */
  lemma SanitiseScenarioExample()
    ensures Sanitise("DeepElec_SSP2_ HighRE_Budg900") == "DeepElec_SSP2__HighRE_Budg900"
  {
    SanitiseOneSpace("DeepElec_SSP2_ HighRE_Budg900", "DeepElec_SSP2_", "HighRE_Budg900",
                     "DeepElec_SSP2__HighRE_Budg900");
  }

  /** The temperatures file of that pathway. */
  lemma TemperaturesFileNameExample()
    ensures TemperaturesFileName("REMIND-MAgPIE 2.1-4.3", "DeepElec_SSP2_ HighRE_Budg900")
            == "ar6_scenarios__" + "REMIND-MAgPIE_2.1-4.3" + "__" + "DeepElec_SSP2__HighRE_Budg900"
               + "__temperatures.csv"
  {
    SanitiseModelExample();
    SanitiseScenarioExample();
  }
}
