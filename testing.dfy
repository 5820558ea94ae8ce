/** Test-support helpers (gcages/src/gcages/testing.py): the AR6 file names,
    one test case per model-scenario pair, and the index-label comparison at
    the start of `assert_frame_equal`. */
module Testing {

  import opened Wrappers
  import opened Tables
  import opened Strings

  // ---------------------------------------------------------------------------
  // AR6 file names
  // ---------------------------------------------------------------------------

  /** What sanitising does to one character. */
  function SanitiseChar(c: char): char
  {
    if c == '/' || c == ' ' then '_' else c
  }

  /** `s.replace("/", "_").replace(" ", "_")`. */
  function Sanitise(s: string): (r: string)
    ensures |r| == |s|
    ensures forall i {:trigger r[i]} :: 0 <= i < |s| ==> r[i] == SanitiseChar(s[i])
  {
    var a := ReplaceAll(s, "/", "_");
    ReplaceChar(s, '/', '_');
    ReplaceChar(a, ' ', '_');
    ReplaceAll(a, " ", "_")
  }

  /** A sanitised name holds neither a slash nor a space. */
  lemma SanitisedHasNoSlashOrSpace(s: string)
    ensures '/' !in Sanitise(s) && ' ' !in Sanitise(s)
  {
  }

  /** Sanitising twice is sanitising once. */
  lemma SanitiseIdempotent(s: string)
    ensures Sanitise(Sanitise(s)) == Sanitise(s)
  {
  }

  /** Sanitising works character by character, so it distributes over
      concatenation. */
  lemma SanitiseConcat(a: string, b: string)
    ensures Sanitise(a + b) == Sanitise(a) + Sanitise(b)
  {
    assert |Sanitise(a + b)| == |Sanitise(a) + Sanitise(b)|;
    forall i | 0 <= i < |a + b| ensures Sanitise(a + b)[i] == (Sanitise(a) + Sanitise(b))[i] {
      if i >= |a| { assert (a + b)[i] == b[i - |a|]; }
    }
  }

  /** Sanitising leaves a name without slashes and spaces unchanged. */
  lemma SanitiseClean(s: string)
    requires '/' !in s && ' ' !in s
    ensures Sanitise(s) == s
  {
  }

  /** Sanitising `prefix + s` where the prefix is already clean. */
  lemma SanitiseAfterClean(prefix: string, s: string)
    requires '/' !in prefix && ' ' !in prefix
    ensures Sanitise(prefix + s) == prefix + Sanitise(s)
  {
    SanitiseConcat(prefix, s);
    SanitiseClean(prefix);
  }

  /** Sanitising `s + suffix` where the suffix is already clean. */
  lemma SanitiseBeforeClean(s: string, suffix: string)
    requires '/' !in suffix && ' ' !in suffix
    ensures Sanitise(s + suffix) == Sanitise(s) + suffix
  {
    SanitiseConcat(s, suffix);
    SanitiseClean(suffix);
  }

  /** The name of the file holding one AR6 model-scenario's data: the
      f-string `ar6_scenarios__{model}__{scenario}` followed by `suffix`, with
      slashes and spaces made `_`. */
  function Ar6FileName(model: string, scenario: string, suffix: string): (name: string)
    requires '/' !in suffix && ' ' !in suffix
    ensures name == "ar6_scenarios__" + Sanitise(model) + "__" + Sanitise(scenario) + suffix
    ensures '/' !in name && ' ' !in name
  {
    var raw := "ar6_scenarios__" + model + "__" + scenario + suffix;
    Ar6FileNameShape(model, scenario, suffix);
    SanitisedHasNoSlashOrSpace(raw);
    Sanitise(raw)
  }

  /** Sanitisation only touches the model and scenario parts of the name. */
  lemma Ar6FileNameShape(model: string, scenario: string, suffix: string)
    requires '/' !in suffix && ' ' !in suffix
    ensures Sanitise("ar6_scenarios__" + model + "__" + scenario + suffix)
            == "ar6_scenarios__" + Sanitise(model) + "__" + Sanitise(scenario) + suffix
  {
    var a1 := "ar6_scenarios__" + model;
    SanitiseAfterClean("ar6_scenarios__", model);
    var a2 := a1 + "__";
    SanitiseBeforeClean(a1, "__");
    var a3 := a2 + scenario;
    SanitiseConcat(a2, scenario);
    SanitiseBeforeClean(a3, suffix);
  }

  /** The emissions file of `get_ar6_all_emissions`. */
  function EmissionsFileName(model: string, scenario: string): (name: string)
    ensures name == "ar6_scenarios__" + Sanitise(model) + "__" + Sanitise(scenario) + "__emissions.csv"
  {
    Ar6FileName(model, scenario, "__emissions.csv")
  }

  /** The temperatures file of `get_ar6_temperature_outputs`. */
  function TemperaturesFileName(model: string, scenario: string): (name: string)
    ensures name == "ar6_scenarios__" + Sanitise(model) + "__" + Sanitise(scenario) + "__temperatures.csv"
  {
    Ar6FileName(model, scenario, "__temperatures.csv")
  }

  /** Sanitising a clean name, one character, and another clean name. */
  lemma SanitiseJoin(a: string, c: char, b: string)
    requires '/' !in a && ' ' !in a && '/' !in b && ' ' !in b
    ensures Sanitise(a + [c] + b) == a + [SanitiseChar(c)] + b
  {
    SanitiseClean(a);
    SanitiseClean(b);
    SanitiseConcat(a, [c]);
    SanitiseConcat(a + [c], b);
  }

  // ---------------------------------------------------------------------------
  // One test case per model-scenario pair
  // ---------------------------------------------------------------------------

  /** Python's `<` on strings: lexicographic by code point. */
  predicate StrLess(a: string, b: string)
  {
    if a == [] then b != []
    else if b == [] then false
    else if a[0] != b[0] then a[0] < b[0]
    else StrLess(a[1..], b[1..])
  }

  lemma {:induction false} StrLessIrreflexive(a: string)
    ensures !StrLess(a, a)
  {
    if a != [] { StrLessIrreflexive(a[1..]); }
  }

  lemma {:induction false} StrLessTransitive(a: string, b: string, c: string)
    requires StrLess(a, b) && StrLess(b, c)
    ensures StrLess(a, c)
  {
    if a != [] && b != [] && c != [] && a[0] == b[0] && b[0] == c[0] {
      StrLessTransitive(a[1..], b[1..], c[1..]);
    }
  }

  lemma {:induction false} StrLessTotal(a: string, b: string)
    requires a != b
    ensures StrLess(a, b) || StrLess(b, a)
  {
    if a != [] && b != [] && a[0] == b[0] {
      assert a == [a[0]] + a[1..] && b == [b[0]] + b[1..];
      StrLessTotal(a[1..], b[1..]);
    }
  }

  /** A (Model, Scenario) group key. */
  type Key = (string, string)

  /** The order `groupby` sorts its keys in: by model, then by scenario. */
  predicate KeyLess(k: Key, l: Key)
  {
    StrLess(k.0, l.0) || (k.0 == l.0 && StrLess(k.1, l.1))
  }

  lemma KeyLessIrreflexive(k: Key)
    ensures !KeyLess(k, k)
  {
    StrLessIrreflexive(k.0);
    StrLessIrreflexive(k.1);
  }

  lemma KeyLessTransitive(k: Key, l: Key, m: Key)
    requires KeyLess(k, l) && KeyLess(l, m)
    ensures KeyLess(k, m)
  {
    if StrLess(k.0, l.0) && StrLess(l.0, m.0) {
      StrLessTransitive(k.0, l.0, m.0);
    } else if k.0 == l.0 && l.0 == m.0 {
      StrLessTransitive(k.1, l.1, m.1);
    }
  }

  lemma KeyLessTotal(k: Key, l: Key)
    requires k != l
    ensures KeyLess(k, l) || KeyLess(l, k)
  {
    if k.0 != l.0 { StrLessTotal(k.0, l.0); } else { StrLessTotal(k.1, l.1); }
  }

  /** Keys in strictly increasing order, hence without repetition. */
  predicate StrictlySorted(ks: seq<Key>)
  {
    forall i, j :: 0 <= i < j < |ks| ==> KeyLess(ks[i], ks[j])
  }

  /** Adding one key to a sorted sequence of distinct keys. */
  function Insert(k: Key, ks: seq<Key>): (r: seq<Key>)
    requires StrictlySorted(ks)
    ensures StrictlySorted(r)
    ensures forall x :: x in r <==> x == k || x in ks
  {
    if ks == [] then [k]
    else if k == ks[0] then ks
    else if KeyLess(k, ks[0]) then
      assert forall j :: 0 < j < |ks| ==> KeyLess(k, ks[j]) by {
        forall j | 0 < j < |ks| ensures KeyLess(k, ks[j]) { KeyLessTransitive(k, ks[0], ks[j]); }
      }
      [k] + ks
    else
      KeyLessTotal(k, ks[0]);
      var rest := Insert(k, ks[1..]);
      assert forall x :: x in rest ==> KeyLess(ks[0], x);
      [ks[0]] + rest
  }

  /** The keys `groupby(["Model", "Scenario"])` iterates over, given the two
      columns row by row: each distinct pair once, sorted. */
  function GroupKeys(pairs: seq<Key>): (ks: seq<Key>)
    ensures StrictlySorted(ks)
    ensures forall k :: k in ks <==> k in pairs
  {
    if pairs == [] then []
    else
      var init := pairs[..|pairs| - 1];
      assert forall k :: k in pairs <==> k in init || k == pairs[|pairs| - 1];
      Insert(pairs[|pairs| - 1], GroupKeys(init))
  }

  /** A `pytest.param(model, scenario, id=...)`. */
  datatype TestCase = TestCase(model: string, scenario: string, id: string)

  /** The case a group key gives rise to. */
  function CaseFor(k: Key): TestCase
  {
    TestCase(k.0, k.1, k.0 + "__" + k.1)
  }

  /** `create_model_scenario_test_cases`: one case per distinct (Model,
      Scenario) pair of the input, in sorted order, each with id
      `model__scenario`. */
  function CreateModelScenarioTestCases(pairs: seq<Key>): (cases: seq<TestCase>)
    ensures forall c :: c in cases <==> (c.model, c.scenario) in pairs && c.id == c.model + "__" + c.scenario
    ensures forall i, j :: 0 <= i < j < |cases| ==>
              KeyLess((cases[i].model, cases[i].scenario), (cases[j].model, cases[j].scenario))
  {
    var ks := GroupKeys(pairs);
    var cases := seq(|ks|, i requires 0 <= i < |ks| => CaseFor(ks[i]));
    assert forall c :: c in cases ==> (c.model, c.scenario) in ks by {
      forall c | c in cases ensures (c.model, c.scenario) in ks {
        var i :| 0 <= i < |cases| && cases[i] == c;
      }
    }
    assert forall k :: k in ks ==> CaseFor(k) in cases by {
      forall k | k in ks ensures CaseFor(k) in cases {
        var i :| 0 <= i < |ks| && ks[i] == k;
        assert cases[i] == CaseFor(k);
      }
    }
    cases
  }

  /** No pair gets two cases. */
  lemma TestCasesDistinct(pairs: seq<Key>)
    ensures forall i, j :: 0 <= i < |CreateModelScenarioTestCases(pairs)| &&
                           0 <= j < |CreateModelScenarioTestCases(pairs)| && i != j ==>
              (CreateModelScenarioTestCases(pairs)[i].model, CreateModelScenarioTestCases(pairs)[i].scenario)
              != (CreateModelScenarioTestCases(pairs)[j].model, CreateModelScenarioTestCases(pairs)[j].scenario)
  {
    var cases := CreateModelScenarioTestCases(pairs);
    forall i, j | 0 <= i < |cases| && 0 <= j < |cases| && i != j
      ensures (cases[i].model, cases[i].scenario) != (cases[j].model, cases[j].scenario)
    {
      KeyLessIrreflexive((cases[i].model, cases[i].scenario));
      KeyLessIrreflexive((cases[j].model, cases[j].scenario));
    }
  }

  /** Repeating rows or reordering them changes nothing: the cases depend only
      on the set of pairs. */
  lemma TestCasesDependOnlyOnPairSet(pairs: seq<Key>, pairs': seq<Key>)
    requires forall k :: k in pairs <==> k in pairs'
    ensures CreateModelScenarioTestCases(pairs) == CreateModelScenarioTestCases(pairs')
  {
    var a, b := CreateModelScenarioTestCases(pairs), CreateModelScenarioTestCases(pairs');
    SortedUnique(a, b);
  }

  /** Two case sequences sorted by key with the same members are equal. */
  lemma {:induction false} SortedUnique(a: seq<TestCase>, b: seq<TestCase>)
    requires forall i, j :: 0 <= i < j < |a| ==> KeyLess((a[i].model, a[i].scenario), (a[j].model, a[j].scenario))
    requires forall i, j :: 0 <= i < j < |b| ==> KeyLess((b[i].model, b[i].scenario), (b[j].model, b[j].scenario))
    requires forall c :: c in a <==> c in b
    ensures a == b
  {
    assert a == [] <==> b == [] by {
      if a != [] { assert a[0] in a; }
      if b != [] { assert b[0] in b; }
    }
    if a != [] {
      var x, y := a[0], b[0];
      assert y in a && x in b;
      if x != y {
        var i :| 0 <= i < |a| && a[i] == y;
        var j :| 0 <= j < |b| && b[j] == x;
        assert i > 0 && j > 0;
        assert KeyLess((x.model, x.scenario), (y.model, y.scenario));
        assert KeyLess((y.model, y.scenario), (x.model, x.scenario));
        KeyLessTransitive((x.model, x.scenario), (y.model, y.scenario), (x.model, x.scenario));
        KeyLessIrreflexive((x.model, x.scenario));
      }
      forall c ensures c in a[1..] <==> c in b[1..] {
        if c in a[1..] {
          var i :| 1 <= i < |a| && a[i] == c;
          assert KeyLess((x.model, x.scenario), (c.model, c.scenario));
          KeyLessIrreflexive((x.model, x.scenario));
          assert c in a && c in b;
          var j :| 0 <= j < |b| && b[j] == c;
          assert j != 0;
          assert b[j] == b[1..][j - 1];
        }
        if c in b[1..] {
          var j :| 1 <= j < |b| && b[j] == c;
          assert KeyLess((y.model, y.scenario), (c.model, c.scenario));
          KeyLessIrreflexive((y.model, y.scenario));
          assert c in b && c in a;
          var i :| 0 <= i < |a| && a[i] == c;
          assert i != 0;
          assert a[i] == a[1..][i - 1];
        }
      }
      SortedUnique(a[1..], b[1..]);
    }
  }

  /** Ids need not be unique: a separator inside a name can make two pairs
      share one id. */
  lemma TestCaseIdsCanCollide()
    ensures var cases := CreateModelScenarioTestCases([("a__b", "c"), ("a", "b__c")]);
            |cases| == 2 && cases[0].id == cases[1].id
  {
    var k1, k2: Key := ("a__b", "c"), ("a", "b__c");
    assert [k1, k2][..1] == [k1];
    assert GroupKeys([k1]) == [k1];
    assert StrLess("", "__b");
    assert KeyLess(k2, k1);
    assert GroupKeys([k1, k2]) == [k2, k1];
  }

  // ---------------------------------------------------------------------------
  // The index-label check of `assert_frame_equal`
  // ---------------------------------------------------------------------------

  /** Why the label check rejects a pair of frames. */
  datatype LabelMismatch =
    | MissingLevel(level: Dim)                  // `exp` has no such level: a KeyError
    | Differences(level: Dim, diffs: set<Label>) // the AssertionError and its differing labels

  /** The labels in exactly one of the two sets. */
  function SymmetricDifference(a: set<Label>, b: set<Label>): (d: set<Label>)
    ensures forall x :: x in d <==> (x in a && x !in b) || (x in b && x !in a)
    ensures d == {} <==> a == b
  {
    (a - b) + (b - a)
  }

  /** Level `d` of `res` exists in `exp` and carries the same labels. */
  predicate LevelAgrees(d: Dim, res: Table, exp: Table)
  {
    d in exp.names && Labels(res, d) == Labels(exp, d)
  }

  /** `levels[k]` is the first of `levels` that does not agree. */
  predicate FirstFailingLevel(levels: seq<Dim>, k: int, res: Table, exp: Table)
  {
    0 <= k < |levels| && !LevelAgrees(levels[k], res, exp) &&
    forall j :: 0 <= j < k ==> LevelAgrees(levels[j], res, exp)
  }

  /** `e` is the error raised for level `d`: a KeyError when `exp` lacks the
      level, and otherwise the non-empty symmetric difference of the labels. */
  predicate Reports(e: LabelMismatch, d: Dim, res: Table, exp: Table)
  {
    e.level == d &&
    (e.MissingLevel? <==> d !in exp.names) &&
    (e.Differences? ==> e.diffs == SymmetricDifference(Labels(res, d), Labels(exp, d)) && e.diffs != {})
  }

  /** The loop over `levels` in order, stopping at the first level that fails. */
  function CheckLevels(levels: seq<Dim>, res: Table, exp: Table): (o: Outcome<LabelMismatch>)
    ensures o.Pass? <==> forall d :: d in levels ==> LevelAgrees(d, res, exp)
    ensures o.Fail? ==> exists k :: FirstFailingLevel(levels, k, res, exp) && Reports(o.error, levels[k], res, exp)
  {
    if levels == [] then Pass
    else
      var d := levels[0];
      assert forall x :: x in levels <==> x == d || x in levels[1..];
      if d !in exp.names then
        assert FirstFailingLevel(levels, 0, res, exp);
        Fail(MissingLevel(d))
      else
        var diffs := SymmetricDifference(Labels(res, d), Labels(exp, d));
        if diffs != {} then
          assert FirstFailingLevel(levels, 0, res, exp);
          Fail(Differences(d, diffs))
        else
          var o := CheckLevels(levels[1..], res, exp);
          if o.Pass? then o
          else
            assert exists k :: FirstFailingLevel(levels, k, res, exp) && Reports(o.error, levels[k], res, exp) by {
              var k :| FirstFailingLevel(levels[1..], k, res, exp) && Reports(o.error, levels[1..][k], res, exp);
              assert levels[k + 1] == levels[1..][k];
              forall j | 0 <= j < k + 1 ensures LevelAgrees(levels[j], res, exp) {
                if j > 0 { assert levels[j] == levels[1..][j - 1]; }
              }
              assert FirstFailingLevel(levels, k + 1, res, exp);
            }
            o
  }

  /** The index-label part of `assert_frame_equal(res, exp)`: every index
      level of `res` must carry the same set of labels in `exp`. */
  function CheckIndexLabels(res: Table, exp: Table): (o: Outcome<LabelMismatch>)
    ensures o.Pass? <==> forall d :: d in res.names ==> d in exp.names && Labels(res, d) == Labels(exp, d)
  {
    CheckLevels(res.names, res, exp)
  }

  /** A frame always passes against itself. */
  lemma CheckIndexLabelsReflexive(t: Table)
    ensures CheckIndexLabels(t, t) == Pass
  {
  }

  /** With the same index levels on both sides the check is symmetric: the
      symmetric difference does not care which frame is `res`. */
  lemma CheckIndexLabelsSymmetric(res: Table, exp: Table)
    requires forall d :: d in res.names <==> d in exp.names
    ensures CheckIndexLabels(res, exp).Pass? <==> CheckIndexLabels(exp, res).Pass?
  {
  }

  /** A label on one side only makes the check fail. */
  lemma CheckIndexLabelsRejectsExtraLabel(res: Table, exp: Table, d: Dim, x: Label)
    requires d in res.names && d in exp.names
    requires x in Labels(exp, d) && x !in Labels(res, d)
    ensures CheckIndexLabels(res, exp).Fail?
  {
  }
}
