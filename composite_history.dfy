/** The selection and renaming logic of the composite-history notebook
    (notebooks/0201_create-composite-history.py): the duplicate-index guards on
    the national inputs, the CEDS-iteration check, the loop that builds the
    global composite from one designated source per variable, and the renaming
    of RCMIP variables to IAMC variables. */
module CompositeHistory {

  import opened Wrappers
  import opened Tables
  import opened Strings

  /** Why building the composite history stops. */
  datatype CompositeError =
    | DuplicateIndex                          // `index.duplicated().any()` held
    | SeveralCedsModels(models: seq<Label>)   // CEDS World rows come from several models
    | NoCedsWorldRows                         // `ceds_iteration[0]` on an empty index
    | NotAvailable(variable: Label, source: Label)
    | NoObjectsToConcatenate                  // `pix.concat([])` on an empty list

  /** The text of the AssertionError raised when a source lacks a variable. */
  function NotAvailableMessage(variable: Label, source: Label): (msg: string)
    ensures |msg| == |variable| + |" not available from "| + |source|
    ensures msg[..|variable|] == variable
    ensures msg[|msg| - |source|..] == source
  {
    variable + " not available from " + source
  }

  // ---------------------------------------------------------------------------
  // Duplicate-index guards
  // ---------------------------------------------------------------------------

  /** `index.duplicated().any()`: some index entry occurs twice. */
  function HasDuplicates(rows: seq<Row>): (b: bool)
    ensures b <==> !Distinct(rows)
  {
    if rows == [] then false
    else
      var init := rows[..|rows| - 1];
      var last := rows[|rows| - 1];
      if last in init then
        var i :| 0 <= i < |init| && init[i] == last;
        assert rows[i] == rows[|rows| - 1];
        true
      else
        var b := HasDuplicates(init);
        assert !b ==> Distinct(rows) by {
          if !b {
            forall i, j | 0 <= i < j < |rows| ensures rows[i] != rows[j] {
              if j < |rows| - 1 { assert rows[i] == init[i] && rows[j] == init[j]; }
              else { assert rows[i] in init; }
            }
          }
        }
        assert b ==> !Distinct(rows) by {
          if b {
            var i, j :| 0 <= i < j < |init| && init[i] == init[j];
            assert rows[i] == rows[j];
          }
        }
        b
  }

  /** `pix.concat([national, world])` followed by the duplicate-index guard. */
  function ConcatRejectingDuplicates(a: seq<Row>, b: seq<Row>): (r: Result<seq<Row>, CompositeError>)
    ensures r.Success? <==> Distinct(a + b)
    ensures r.Success? ==> r.value == a + b
    ensures r.Failure? ==> r.error == DuplicateIndex
  {
    if HasDuplicates(a + b) then Failure(DuplicateIndex) else Success(a + b)
  }

  /** Two duplicate-free parts with no entry in common concatenate cleanly. */
  lemma ConcatOfDisjointParts(a: seq<Row>, b: seq<Row>)
    requires Distinct(a) && Distinct(b)
    requires forall r :: r in a ==> r !in b
    ensures ConcatRejectingDuplicates(a, b) == Success(a + b)
  {
    forall i, j | 0 <= i < j < |a + b| ensures (a + b)[i] != (a + b)[j] {
      if j >= |a| {
        assert (a + b)[j] == b[j - |a|];
        if i < |a| { assert (a + b)[i] == a[i]; assert a[i] !in b; }
        else { assert (a + b)[i] == b[i - |a|]; }
      }
    }
  }

  /** An entry present in both parts is rejected. */
  lemma ConcatOfOverlappingParts(a: seq<Row>, b: seq<Row>, r: Row)
    requires r in a && r in b
    ensures ConcatRejectingDuplicates(a, b) == Failure(DuplicateIndex)
  {
    var i :| 0 <= i < |a| && a[i] == r;
    var j :| 0 <= j < |b| && b[j] == r;
    assert (a + b)[i] == (a + b)[|a| + j];
  }

  // ---------------------------------------------------------------------------
  // The CEDS iteration
  // ---------------------------------------------------------------------------

  /** A row of the `World` region (`pix.isin(region=["World"])`). */
  predicate IsWorld(r: Row)
  {
    "region" in r && r["region"] == "World"
  }

  /** The `model` labels of the World rows, row by row. */
  function WorldModels(rows: seq<Row>): (ms: seq<Label>)
    ensures forall m :: m in ms <==> exists r :: r in rows && IsWorld(r) && "model" in r && r["model"] == m
  {
    if rows == [] then []
    else
      var init := WorldModels(rows[..|rows| - 1]);
      var r := rows[|rows| - 1];
      assert forall x :: x in rows <==> x in rows[..|rows| - 1] || x == r;
      if IsWorld(r) && "model" in r then init + [r["model"]] else init
  }

  /** `ceds_iteration`: the single model the CEDS World rows come from. */
  function CedsIteration(ceds: seq<Row>): (r: Result<Label, CompositeError>)
    ensures r.Success? <==>
              (exists x :: x in ceds && IsWorld(x) && "model" in x) &&
              forall x, y :: x in ceds && IsWorld(x) && "model" in x && y in ceds && IsWorld(y) && "model" in y
                ==> x["model"] == y["model"]
    ensures r.Success? ==> exists x :: x in ceds && IsWorld(x) && "model" in x && x["model"] == r.value
    ensures r.Success? ==> forall x :: x in ceds && IsWorld(x) && "model" in x ==> x["model"] == r.value
    ensures r.Failure? ==> r.error == NoCedsWorldRows || (r.error.SeveralCedsModels? && |r.error.models| > 1)
    ensures r == Failure(NoCedsWorldRows) <==> forall x :: x in ceds && IsWorld(x) ==> "model" !in x
    ensures r.Failure? && r.error.SeveralCedsModels? ==>
              Distinct(r.error.models) && forall m :: m in r.error.models <==> m in WorldModels(ceds)
  {
    var ms := WorldModels(ceds);
    var models := Unique(ms);
    UniqueAtMostOne(ms);
    assert forall x :: x in ceds && IsWorld(x) && "model" in x ==> x["model"] in ms;
    if |models| > 1 then
      assert models[0] != models[1] && models[0] in ms && models[1] in ms;
      Failure(SeveralCedsModels(models))
    else if |models| == 0 then
      Failure(NoCedsWorldRows)
    else
      assert models[0] in ms;
      assert forall m :: m in ms ==> m == models[0];
      Success(models[0])
  }

  // ---------------------------------------------------------------------------
  // The global composite
  // ---------------------------------------------------------------------------

  /** A row of `variable` reported by the model `source`
      (`pix.isin(variable=[variable]) & pix.isin(model=[source])`). */
  predicate FromSource(r: Row, variable: Label, source: Label)
  {
    "variable" in r && r["variable"] == variable && "model" in r && r["model"] == source
  }

  /** `all_sources.loc[source_loc]`: the rows from `source` for `variable`, in order. */
  function Select(rows: seq<Row>, variable: Label, source: Label): seq<Row>
  {
    if rows == [] then []
    else
      var last := rows[|rows| - 1];
      Select(rows[..|rows| - 1], variable, source) + (if FromSource(last, variable, source) then [last] else [])
  }

  /** The rows kept are exactly the input rows from `source` for `variable`. */
  lemma {:induction false} SelectMembers(rows: seq<Row>, variable: Label, source: Label)
    ensures forall r :: r in Select(rows, variable, source) <==> r in rows && FromSource(r, variable, source)
  {
    if rows != [] {
      var init := rows[..|rows| - 1];
      SelectMembers(init, variable, source);
      assert forall x :: x in rows <==> x in init || x == rows[|rows| - 1];
    }
  }

  /** A selected row keeps all its copies; other rows keep none. */
  lemma {:induction false} SelectMultiplicity(rows: seq<Row>, variable: Label, source: Label, r: Row)
    ensures multiset(Select(rows, variable, source))[r] ==
              if FromSource(r, variable, source) then multiset(rows)[r] else 0
  {
    if rows != [] {
      var init := rows[..|rows| - 1];
      assert rows == init + [rows[|rows| - 1]];
      SelectMultiplicity(init, variable, source, r);
    }
  }

  /** The concatenation of every entry's selection, in the order of the entries. */
  function Composite(rows: seq<Row>, sources: seq<(Label, Label)>): seq<Row>
  {
    if sources == [] then []
    else
      var k := |sources| - 1;
      Composite(rows, sources[..k]) + Select(rows, sources[k].0, sources[k].1)
  }

  /** Entry `k` is the first whose source has no rows for its variable. */
  predicate FirstUnavailable(rows: seq<Row>, sources: seq<(Label, Label)>, k: int)
  {
    0 <= k < |sources| && |Select(rows, sources[k].0, sources[k].1)| == 0 &&
    forall j :: 0 <= j < k ==> |Select(rows, sources[j].0, sources[j].1)| > 0
  }

  /** One more entry appends its selection. */
  lemma CompositeStep(rows: seq<Row>, sources: seq<(Label, Label)>, i: nat)
    requires i < |sources|
    ensures Composite(rows, sources[..i + 1]) == Composite(rows, sources[..i]) + Select(rows, sources[i].0, sources[i].1)
  {
    assert sources[..i + 1][..i] == sources[..i];
  }

  /** The loop over `global_variable_sources`: for each (variable, source)
      entry in order, keep the rows of that variable from that source, and
      stop at the first entry that keeps nothing. `stop` is that entry, or the
      number of entries when every entry keeps rows; `composite` holds the
      selections kept before it, concatenated in entry order. */
  method ScanSelections(allSources: seq<Row>, sources: seq<(Label, Label)>)
    returns (composite: seq<Row>, stop: nat)
    ensures stop <= |sources|
    ensures forall k :: 0 <= k < stop ==> |Select(allSources, sources[k].0, sources[k].1)| > 0
    ensures stop < |sources| ==> |Select(allSources, sources[stop].0, sources[stop].1)| == 0
    ensures composite == Composite(allSources, sources[..stop])
  {
    composite := [];
    stop := 0;
    while stop < |sources|
      invariant stop <= |sources|
      invariant composite == Composite(allSources, sources[..stop])
      invariant forall k :: 0 <= k < stop ==> |Select(allSources, sources[k].0, sources[k].1)| > 0
    {
      var (variable, source) := sources[stop];
      var toKeep := Select(allSources, variable, source);
      if |toKeep| == 0 {
        return;
      }
      CompositeStep(allSources, sources, stop);
      composite := composite + toKeep;
      stop := stop + 1;
    }
  }

  /** The loop with its `AssertionError`: "{variable} not available from
      {source}" for the first entry that keeps nothing, and otherwise the
      selections of all entries, concatenated in entry order. */
  method CollectSelections(allSources: seq<Row>, sources: seq<(Label, Label)>)
    returns (res: Result<seq<Row>, CompositeError>)
    ensures res.Success? <==> forall k :: 0 <= k < |sources| ==> |Select(allSources, sources[k].0, sources[k].1)| > 0
    ensures res.Failure? ==> exists k :: FirstUnavailable(allSources, sources, k) &&
                                        res.error == NotAvailable(sources[k].0, sources[k].1)
    ensures res.Success? ==> res.value == Composite(allSources, sources)
  {
    var composite, stop := ScanSelections(allSources, sources);
    if stop < |sources| {
      assert FirstUnavailable(allSources, sources, stop);
      return Failure(NotAvailable(sources[stop].0, sources[stop].1));
    }
    assert sources[..stop] == sources;
    return Success(composite);
  }

  /** The loop and then `pix.concat(global_composite_l)`, which raises when the
      list is empty, that is when there are no entries at all. */
  method BuildGlobalComposite(allSources: seq<Row>, sources: seq<(Label, Label)>)
    returns (res: Result<seq<Row>, CompositeError>)
    ensures res.Success? <==>
              |sources| > 0 && forall k :: 0 <= k < |sources| ==> |Select(allSources, sources[k].0, sources[k].1)| > 0
    ensures |sources| == 0 ==> res == Failure(NoObjectsToConcatenate)
    ensures |sources| > 0 && res.Failure? ==> exists k :: FirstUnavailable(allSources, sources, k) &&
                                                         res.error == NotAvailable(sources[k].0, sources[k].1)
    ensures res.Success? ==> res.value == Composite(allSources, sources)
  {
    res := CollectSelections(allSources, sources);
    if res.Success? && |sources| == 0 {
      res := Failure(NoObjectsToConcatenate);
    }
  }

  /** Every row of the composite comes from the source its entry names, and
      every row of `allSources` matching an entry is in it. */
  lemma {:induction false} CompositeMembers(rows: seq<Row>, sources: seq<(Label, Label)>)
    ensures forall r :: r in Composite(rows, sources) <==> r in rows && MatchesEntry(r, sources)
  {
    if sources != [] {
      var k := |sources| - 1;
      CompositeMembers(rows, sources[..k]);
      SelectMembers(rows, sources[k].0, sources[k].1);
      forall r ensures r in Composite(rows, sources) <==> r in rows && MatchesEntry(r, sources) {
        MatchesEntryStep(r, sources, k);
      }
    }
  }

  /** Every entry contributes at least one row to a successful composite. */
  lemma EveryEntryContributes(rows: seq<Row>, sources: seq<(Label, Label)>, k: nat)
    requires k < |sources|
    requires |Select(rows, sources[k].0, sources[k].1)| > 0
    ensures exists r :: r in Composite(rows, sources) && FromSource(r, sources[k].0, sources[k].1)
  {
    var sel := Select(rows, sources[k].0, sources[k].1);
    var r := sel[0];
    assert r in sel;
    SelectMembers(rows, sources[k].0, sources[k].1);
    CompositeMembers(rows, sources);
    assert r in rows && FromSource(r, sources[k].0, sources[k].1);
    assert MatchesEntry(r, sources);
  }

  /** The variables of the entries, in order. */
  function Variables(sources: seq<(Label, Label)>): seq<Label>
  {
    seq(|sources|, k requires 0 <= k < |sources| => sources[k].0)
  }

  /** Some entry names the row's variable and model. */
  predicate MatchesEntry(r: Row, sources: seq<(Label, Label)>)
  {
    exists k :: 0 <= k < |sources| && FromSource(r, sources[k].0, sources[k].1)
  }

  /** The entries before the last one match a row, or the last one does. */
  lemma MatchesEntryStep(r: Row, sources: seq<(Label, Label)>, k: nat)
    requires k + 1 == |sources|
    ensures MatchesEntry(r, sources) <==> MatchesEntry(r, sources[..k]) || FromSource(r, sources[k].0, sources[k].1)
  {
    assert forall j :: 0 <= j < k ==> sources[..k][j] == sources[j];
  }

  /** Counting a row in the composite, one entry at a time. */
  lemma CompositeCountStep(rows: seq<Row>, sources: seq<(Label, Label)>, r: Row, k: nat)
    requires k + 1 == |sources|
    ensures multiset(Composite(rows, sources))[r] ==
        multiset(Composite(rows, sources[..k]))[r] + multiset(Select(rows, sources[k].0, sources[k].1))[r]
  {
  }

  /** With one entry per variable (a dictionary's keys are distinct), no row is
      taken twice: each row occurs in the composite as often as in the input
      when it matches an entry, and not at all otherwise. */
  lemma {:induction false} CompositeMultiplicity(rows: seq<Row>, sources: seq<(Label, Label)>, r: Row)
    requires Distinct(Variables(sources))
    ensures multiset(Composite(rows, sources))[r] == if MatchesEntry(r, sources) then multiset(rows)[r] else 0
  {
    if sources != [] {
      var k := |sources| - 1;
      var init := sources[..k];
      assert Distinct(Variables(init)) by {
        assert Variables(init) == Variables(sources)[..k];
      }
      CompositeMultiplicity(rows, init, r);
      SelectMultiplicity(rows, sources[k].0, sources[k].1, r);
      CompositeCountStep(rows, sources, r, k);
      MatchesEntryStep(r, sources, k);
      if MatchesEntry(r, init) {
        assert !FromSource(r, sources[k].0, sources[k].1) by {
          var j :| 0 <= j < k && FromSource(r, init[j].0, init[j].1);
          assert Variables(sources)[j] != Variables(sources)[k];
        }
      }
    }
  }

  /** The composite never holds more copies of a row than the input. */
  lemma CompositeIsSubMultiset(rows: seq<Row>, sources: seq<(Label, Label)>)
    requires Distinct(Variables(sources))
    ensures multiset(Composite(rows, sources)) <= multiset(rows)
  {
    forall r ensures multiset(Composite(rows, sources))[r] <= multiset(rows)[r] {
      CompositeMultiplicity(rows, sources, r);
    }
  }

  /** `global_variable_sources`: the model each global variable is taken
      from, in the dictionary's order; CO2 from energy and industry comes from
      the CEDS iteration found in the data. */
  function GlobalVariableSources(cedsIteration: Label): (sources: seq<(Label, Label)>)
    ensures |sources| == 52
    ensures sources[13] == ("Emissions|CO2|Energy and Industrial Processes", cedsIteration)
  {
    [
      ("Emissions|BC", "CEDS-BB4CMIP-PRIMAP"),
      ("Emissions|CF4", "WMO 2022 AGAGE inversions"),
      ("Emissions|C2F6", "WMO 2022 AGAGE inversions"),
      ("Emissions|C3F8", "CR-CMIP-1-0-0-inverse-smooth"),
      ("Emissions|cC4F8", "CR-CMIP-1-0-0-inverse-smooth"),
      ("Emissions|C4F10", "CR-CMIP-1-0-0-inverse-smooth"),
      ("Emissions|C5F12", "CR-CMIP-1-0-0-inverse-smooth"),
      ("Emissions|C7F16", "CR-CMIP-1-0-0-inverse-smooth"),
      ("Emissions|C8F18", "CR-CMIP-1-0-0-inverse-smooth"),
      ("Emissions|C6F14", "CR-CMIP-1-0-0-inverse-smooth"),
      ("Emissions|CH4", "CEDS-BB4CMIP-PRIMAP"),
      ("Emissions|CO", "CEDS-BB4CMIP-PRIMAP"),
      ("Emissions|CO2|AFOLU", "Global Carbon Budget"),
      ("Emissions|CO2|Energy and Industrial Processes", cedsIteration),
      ("Emissions|HFC|HFC125", "Velders et al., 2022"),
      ("Emissions|HFC|HFC134a", "Velders et al., 2022"),
      ("Emissions|HFC|HFC143a", "Velders et al., 2022"),
      ("Emissions|HFC|HFC152a", "Velders et al., 2022"),
      ("Emissions|HFC|HFC227ea", "Velders et al., 2022"),
      ("Emissions|HFC|HFC23", "Adam et al., 2024"),
      ("Emissions|HFC|HFC236fa", "Velders et al., 2022"),
      ("Emissions|HFC|HFC245fa", "Velders et al., 2022"),
      ("Emissions|HFC|HFC32", "Velders et al., 2022"),
      ("Emissions|HFC|HFC365mfc", "Velders et al., 2022"),
      ("Emissions|HFC|HFC43-10", "Velders et al., 2022"),
      ("Emissions|Montreal Gases|CCl4", "WMO 2022"),
      ("Emissions|Montreal Gases|CFC|CFC11", "WMO 2022"),
      ("Emissions|Montreal Gases|CFC|CFC113", "WMO 2022"),
      ("Emissions|Montreal Gases|CFC|CFC114", "WMO 2022"),
      ("Emissions|Montreal Gases|CFC|CFC115", "WMO 2022"),
      ("Emissions|Montreal Gases|CFC|CFC12", "WMO 2022"),
      ("Emissions|Montreal Gases|CH2Cl2", "CR-CMIP-1-0-0-inverse-smooth"),
      ("Emissions|Montreal Gases|CH3Br", "CR-CMIP-1-0-0-inverse-smooth"),
      ("Emissions|Montreal Gases|CH3CCl3", "WMO 2022"),
      ("Emissions|Montreal Gases|CH3Cl", "CR-CMIP-1-0-0-inverse-smooth"),
      ("Emissions|Montreal Gases|CHCl3", "CR-CMIP-1-0-0-inverse-smooth"),
      ("Emissions|Montreal Gases|HCFC141b", "WMO 2022"),
      ("Emissions|Montreal Gases|HCFC142b", "WMO 2022"),
      ("Emissions|Montreal Gases|HCFC22", "WMO 2022"),
      ("Emissions|Montreal Gases|Halon1202", "WMO 2022"),
      ("Emissions|Montreal Gases|Halon1211", "WMO 2022"),
      ("Emissions|Montreal Gases|Halon1301", "WMO 2022"),
      ("Emissions|Montreal Gases|Halon2402", "WMO 2022"),
      ("Emissions|N2O", "CEDS-BB4CMIP-PRIMAP"),
      ("Emissions|NF3", "CR-CMIP-1-0-0-inverse-smooth"),
      ("Emissions|NH3", "CEDS-BB4CMIP-PRIMAP"),
      ("Emissions|NOx", "CEDS-BB4CMIP-PRIMAP"),
      ("Emissions|OC", "CEDS-BB4CMIP-PRIMAP"),
      ("Emissions|SF6", "WMO 2022 AGAGE inversions"),
      ("Emissions|SO2F2", "CR-CMIP-1-0-0-inverse-smooth"),
      ("Emissions|Sulfur", "CEDS-BB4CMIP-PRIMAP"),
      ("Emissions|VOC", "CEDS-BB4CMIP-PRIMAP")
    ]
  }

  /** The guarded steps of the notebook, in order: both national inputs must be
      free of duplicate index entries, the CEDS World rows must name a single
      model, and then every variable must be available from its source.
      `allSources` is the table the floating-point part of the notebook builds
      from those inputs. */
  method CreateGlobalComposite(cedsNational: seq<Row>, cedsGlobal: seq<Row>,
                               gfedNational: seq<Row>, gfedWorld: seq<Row>,
                               allSources: seq<Row>)
    returns (res: Result<seq<Row>, CompositeError>)
    ensures !Distinct(cedsNational + cedsGlobal) ==> res == Failure(DuplicateIndex)
    ensures Distinct(cedsNational + cedsGlobal) && !Distinct(gfedNational + gfedWorld) ==>
              res == Failure(DuplicateIndex)
    ensures Distinct(cedsNational + cedsGlobal) && Distinct(gfedNational + gfedWorld) &&
            CedsIteration(cedsNational + cedsGlobal).Failure? ==>
              res == Failure(CedsIteration(cedsNational + cedsGlobal).error)
    ensures Distinct(cedsNational + cedsGlobal) && Distinct(gfedNational + gfedWorld) &&
            CedsIteration(cedsNational + cedsGlobal).Success? ==>
              var sources := GlobalVariableSources(CedsIteration(cedsNational + cedsGlobal).value);
              && (res.Success? <==> forall k :: 0 <= k < |sources| ==> |Select(allSources, sources[k].0, sources[k].1)| > 0)
              && (res.Success? ==> res.value == Composite(allSources, sources))
              && (res.Failure? ==> exists k :: FirstUnavailable(allSources, sources, k) &&
                                               res.error == NotAvailable(sources[k].0, sources[k].1))
  {
    var ceds := ConcatRejectingDuplicates(cedsNational, cedsGlobal);
    if ceds.Failure? {
      return Failure(ceds.error);
    }
    var biomassBurning := ConcatRejectingDuplicates(gfedNational, gfedWorld);
    if biomassBurning.Failure? {
      return Failure(biomassBurning.error);
    }
    var iteration := CedsIteration(ceds.value);
    if iteration.Failure? {
      return Failure(iteration.error);
    }
    res := BuildGlobalComposite(allSources, GlobalVariableSources(iteration.value));
  }

  // ---------------------------------------------------------------------------
  // RCMIP variable names
  // ---------------------------------------------------------------------------

  /** The (old, new) pairs `transform_rcmip_to_iamc_variable` applies, in order. */
  const RcmipReplacements: seq<(string, string)> := [
      ("F-Gases|", ""),
      ("PFC|", ""),
      ("HFC4310mee", "HFC43-10"),
      ("MAGICC AFOLU", "AFOLU"),
      ("MAGICC Fossil and Industrial", "Energy and Industrial Processes")
    ]

  /** `s.replace(old, new)` for each pair in turn, each on the previous result. */
  function ApplyReplacements(s: string, reps: seq<(string, string)>): string
    decreases |reps|
  {
    if reps == [] then s else ApplyReplacements(ReplaceAll(s, reps[0].0, reps[0].1), reps[1..])
  }

  /** `transform_rcmip_to_iamc_variable`. */
  method TransformRcmipToIamcVariable(v: string) returns (res: string)
    ensures res == ApplyReplacements(v, RcmipReplacements)
  {
    res := v;
    var replacements := RcmipReplacements;
    for i := 0 to |replacements|
      invariant ApplyReplacements(res, replacements[i..]) == ApplyReplacements(v, replacements)
    {
      var (pat, rep) := replacements[i];
      assert replacements[i..][1..] == replacements[i + 1..];
      res := ReplaceAll(res, pat, rep);
    }
  }

  /** A name holding none of the patterns comes back unchanged. */
  lemma {:induction false} ApplyReplacementsAbsent(s: string, reps: seq<(string, string)>)
    requires forall k :: 0 <= k < |reps| ==> reps[k].0 != [] && !Contains(s, reps[k].0)
    ensures ApplyReplacements(s, reps) == s
  {
    if reps != [] {
      ReplaceAbsent(s, reps[0].0, reps[0].1);
      assert forall k :: 0 <= k < |reps[1..]| ==> reps[1..][k] == reps[k + 1];
      ApplyReplacementsAbsent(s, reps[1..]);
    }
  }

  /** Pairs whose replacements are no longer than their patterns never lengthen
      the name. */
  lemma {:induction false} ApplyReplacementsShortens(s: string, reps: seq<(string, string)>)
    requires forall k :: 0 <= k < |reps| ==> |reps[k].1| <= |reps[k].0|
    ensures |ApplyReplacements(s, reps)| <= |s|
    decreases |reps|
  {
    if reps != [] {
      ReplaceLength(s, reps[0].0, reps[0].1);
      assert forall k :: 0 <= k < |reps[1..]| ==> reps[1..][k] == reps[k + 1];
      ApplyReplacementsShortens(ReplaceAll(s, reps[0].0, reps[0].1), reps[1..]);
    }
  }

  /** A variable name holding none of the five old substrings is returned as is. */
  lemma RcmipNameUnchanged(v: string)
    requires forall k :: 0 <= k < |RcmipReplacements| ==> !Contains(v, RcmipReplacements[k].0)
    ensures ApplyReplacements(v, RcmipReplacements) == v
  {
    ApplyReplacementsAbsent(v, RcmipReplacements);
  }

  /** Applying the list from position i is its i-th replacement followed by the rest. */
  lemma ApplyStep(s: string, reps: seq<(string, string)>, i: nat)
    requires i < |reps|
    ensures ApplyReplacements(s, reps[i..]) ==
            ApplyReplacements(ReplaceAll(s, reps[i].0, reps[i].1), reps[i + 1..])
  {
    assert reps[i..][1..] == reps[i + 1..];
  }

  /** A list of five pairs is five `replace` calls, each on the previous result. */
  lemma ApplyFive(v: string, reps: seq<(string, string)>, w1: string, w2: string, w3: string, w4: string, w5: string)
    requires |reps| == 5
    requires w1 == ReplaceAll(v, reps[0].0, reps[0].1)
    requires w2 == ReplaceAll(w1, reps[1].0, reps[1].1)
    requires w3 == ReplaceAll(w2, reps[2].0, reps[2].1)
    requires w4 == ReplaceAll(w3, reps[3].0, reps[3].1)
    requires w5 == ReplaceAll(w4, reps[4].0, reps[4].1)
    ensures ApplyReplacements(v, reps) == w5
  {
    assert reps[0..] == reps;
    ApplyStep(v, reps, 0);
    ApplyStep(w1, reps, 1);
    ApplyStep(w2, reps, 2);
    ApplyStep(w3, reps, 3);
    ApplyStep(w4, reps, 4);
    assert reps[5..] == [];
  }

  /** A pattern holding a character the name lacks changes nothing. */
  lemma Untouched(s: string, pat: string, rep: string, c: char)
    requires c in pat && c !in s
    ensures ReplaceAll(s, pat, rep) == s
  {
    NotContainsByChar(s, pat, c);
    ReplaceAbsent(s, pat, rep);
  }

  /** "...HFC4310mee" becomes "...HFC43-10", for a prefix such as "Emissions|"
      that holds none of the characters '-', 'P', 'H', 'M'. */
  lemma RcmipHfcRenamed(prefix: string, v: string, w: string)
    requires '-' !in prefix && 'P' !in prefix && 'H' !in prefix && 'M' !in prefix
    requires v == prefix + "HFC4310mee" && w == prefix + "HFC43-10"
    ensures ApplyReplacements(v, RcmipReplacements) == w
  {
    HfcLiteralChars();
    ReplaceAtEnd(prefix, "HFC4310mee", "HFC43-10");
    RcmipOnlyThird(v, w);
  }

  /** Only the third replacement acts on a name without '-' and 'P' whose
      renamed form has no 'M'. */
  lemma RcmipOnlyThird(v: string, w: string)
    requires '-' !in v && 'P' !in v
    requires w == ReplaceAll(v, "HFC4310mee", "HFC43-10") && 'M' !in w
    ensures ApplyReplacements(v, RcmipReplacements) == w
  {
    Untouched(v, "F-Gases|", "", '-');
    Untouched(v, "PFC|", "", 'P');
    Untouched(w, "MAGICC AFOLU", "AFOLU", 'M');
    Untouched(w, "MAGICC Fossil and Industrial", "Energy and Industrial Processes", 'M');
    ApplyFive(v, RcmipReplacements, v, v, w, w, w);
  }

  /** The characters the HFC names lack. */
  lemma HfcLiteralChars()
    ensures '-' !in "HFC4310mee" && 'P' !in "HFC4310mee" && 'M' !in "HFC43-10"
  {
  }

  /** RCMIP's "HFC4310mee" is IAMC's "HFC43-10". */
  lemma RcmipHfc4310Renamed()
    ensures ApplyReplacements("HFC4310mee", RcmipReplacements) == "HFC43-10"
  {
    RcmipHfcRenamed("", "HFC4310mee", "HFC43-10");
  }

  /** "...MAGICC AFOLU" becomes "...AFOLU", for a prefix such as
      "Emissions|CO2|" that holds none of the characters '-', 'P', 'H', 'M'. */
  lemma RcmipAfoluRenamed(prefix: string, v: string, w: string)
    requires '-' !in prefix && 'P' !in prefix && 'H' !in prefix && 'M' !in prefix
    requires v == prefix + "MAGICC AFOLU" && w == prefix + "AFOLU"
    ensures ApplyReplacements(v, RcmipReplacements) == w
  {
    AfoluLiteralChars();
    assert '-' in "-PH" && 'P' in "-PH" && 'H' in "-PH";
    ReplaceAtEnd(prefix, "MAGICC AFOLU", "AFOLU");
    RcmipOnlyFourth(v, w);
  }

  /** Only the fourth replacement acts on a name without '-', 'P' and 'H'
      whose renamed form has no 'M'. */
  lemma RcmipOnlyFourth(v: string, w: string)
    requires '-' !in v && 'P' !in v && 'H' !in v
    requires w == ReplaceAll(v, "MAGICC AFOLU", "AFOLU") && 'M' !in w
    ensures ApplyReplacements(v, RcmipReplacements) == w
  {
    Untouched(v, "F-Gases|", "", '-');
    Untouched(v, "PFC|", "", 'P');
    Untouched(v, "HFC4310mee", "HFC43-10", 'H');
    Untouched(w, "MAGICC Fossil and Industrial", "Energy and Industrial Processes", 'M');
    ApplyFive(v, RcmipReplacements, v, v, v, w, w);
  }

  /** The characters the AFOLU names lack. */
  lemma AfoluLiteralChars()
    ensures forall c :: c in "-PH" ==> c !in "MAGICC AFOLU"
    ensures 'M' !in "AFOLU"
  {
  }

  /** The characters the fossil name lacks. */
  lemma FossilLiteralChars()
    ensures forall c :: c in "-PHU" ==> c !in "MAGICC Fossil and Industrial"
  {
  }

  /** "...MAGICC Fossil and Industrial" becomes "...Energy and Industrial
      Processes", for a prefix such as "Emissions|CO2|" that holds none of the
      characters '-', 'P', 'H', 'U', 'M'. */
  lemma RcmipFossilRenamed(prefix: string, v: string, w: string)
    requires '-' !in prefix && 'P' !in prefix && 'H' !in prefix && 'U' !in prefix && 'M' !in prefix
    requires v == prefix + "MAGICC Fossil and Industrial" && w == prefix + "Energy and Industrial Processes"
    ensures ApplyReplacements(v, RcmipReplacements) == w
  {
    FossilLiteralChars();
    assert '-' in "-PHU" && 'P' in "-PHU" && 'H' in "-PHU" && 'U' in "-PHU";
    ReplaceAtEnd(prefix, "MAGICC Fossil and Industrial", "Energy and Industrial Processes");
    RcmipOnlyLast(v, w);
  }

  /** Only the last replacement acts on a name without '-', 'P', 'H' and 'U'. */
  lemma RcmipOnlyLast(v: string, w: string)
    requires '-' !in v && 'P' !in v && 'H' !in v && 'U' !in v
    requires w == ReplaceAll(v, "MAGICC Fossil and Industrial", "Energy and Industrial Processes")
    ensures ApplyReplacements(v, RcmipReplacements) == w
  {
    Untouched(v, "F-Gases|", "", '-');
    Untouched(v, "PFC|", "", 'P');
    Untouched(v, "HFC4310mee", "HFC43-10", 'H');
    Untouched(v, "MAGICC AFOLU", "AFOLU", 'U');
    ApplyFive(v, RcmipReplacements, v, v, v, v, w);
  }

  /** The first replacement removes the "F-Gases|" level. */
  lemma RcmipDropFGases(prefix: string, gas: string, v: string, u: string)
    requires 'F' !in prefix && '-' !in gas
    requires v == prefix + "F-Gases|PFC|" + gas && u == prefix + "PFC|" + gas
    ensures ReplaceAll(v, "F-Gases|", "") == u
  {
    var rest := "PFC|" + gas;
    assert '-' !in rest && v == prefix + "F-Gases|" + rest && u == prefix + rest by {}
    RemoveMiddle(prefix, "F-Gases|", rest, '-');
  }

  /** The second replacement removes the "PFC|" level. */
  lemma RcmipDropPfc(prefix: string, gas: string, u: string)
    requires 'P' !in prefix && 'P' !in gas
    requires u == prefix + "PFC|" + gas
    ensures ReplaceAll(u, "PFC|", "") == prefix + gas
  {
    RemoveMiddle(prefix, "PFC|", gas, 'P');
  }

  /** The F-gas levels go first, in order: "...F-Gases|PFC|<gas>" becomes
      "...<gas>", for a prefix such as "Emissions|" and a gas such as "C2F6"
      that avoid the characters of the patterns. */
  lemma RcmipPfcRenamed(prefix: string, gas: string, v: string, w: string)
    requires 'F' !in prefix && 'P' !in prefix && 'H' !in prefix && 'M' !in prefix
    requires '-' !in gas && 'P' !in gas && 'H' !in gas && 'M' !in gas
    requires v == prefix + "F-Gases|PFC|" + gas && w == prefix + gas
    ensures ApplyReplacements(v, RcmipReplacements) == w
  {
    var u := prefix + "PFC|" + gas;
    RcmipDropFGases(prefix, gas, v, u);
    RcmipDropPfc(prefix, gas, u);
    RcmipOnlyFirstTwo(v, u, w);
  }

  /** Only the first two replacements act when their result has no 'H' and no 'M'. */
  lemma RcmipOnlyFirstTwo(v: string, u: string, w: string)
    requires u == ReplaceAll(v, "F-Gases|", "") && w == ReplaceAll(u, "PFC|", "")
    requires 'H' !in w && 'M' !in w
    ensures ApplyReplacements(v, RcmipReplacements) == w
  {
    Untouched(w, "HFC4310mee", "HFC43-10", 'H');
    Untouched(w, "MAGICC AFOLU", "AFOLU", 'M');
    Untouched(w, "MAGICC Fossil and Industrial", "Energy and Industrial Processes", 'M');
    ApplyFive(v, RcmipReplacements, u, w, w, w, w);
  }
}
