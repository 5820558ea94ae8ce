/** The grouping guard and the result contract of `run_parallel`
    (gcages/src/gcages/parallelisation.py). */
module Parallelisation {

  import opened Wrappers
  import opened Tables

  // ---------------------------------------------------------------------------
  // Grouping guard: only `variable` and `unit` may vary within a table
  // ---------------------------------------------------------------------------

  /** The index levels of `t` other than `variable` and `unit`. */
  function OtherDims(t: Table): set<Dim>
  {
    (set d | d in t.names) - {"variable", "unit"}
  }

  /** A row restricted to the given levels. */
  function Project(r: Row, dims: set<Dim>): Row
  {
    map d | d in r && d in dims :: r[d]
  }

  /** Every row's labels on the levels other than `variable` and `unit`. */
  function Projections(t: Table): seq<Row>
  {
    seq(|t.rows|, i requires 0 <= i < |t.rows| => Project(t.rows[i], OtherDims(t)))
  }

  /** All rows agree on every level other than `variable` and `unit`. */
  ghost predicate OnlyVariableUnitVary(t: Table)
  {
    forall i, j :: 0 <= i < |t.rows| && 0 <= j < |t.rows| ==>
      Project(t.rows[i], OtherDims(t)) == Project(t.rows[j], OtherDims(t))
  }

  /** `assert_only_working_on_variable_unit_variations`: passes when at most one
      combination of labels on the other levels occurs, and otherwise fails,
      reporting every combination that occurs (in order of first appearance). */
  function AssertOnlyWorkingOnVariableUnitVariations(t: Table): (o: Outcome<seq<Row>>)
    ensures o.Pass? <==> OnlyVariableUnitVary(t)
    ensures o.Fail? ==> |o.error| > 1 && Distinct(o.error)
    ensures o.Fail? ==> forall c :: c in o.error <==> c in Projections(t)
  {
    var variations := Unique(Projections(t));
    UniqueAtMostOne(Projections(t));
    assert forall i :: 0 <= i < |t.rows| ==> Projections(t)[i] == Project(t.rows[i], OtherDims(t));
    if |variations| > 1 then Fail(variations) else Pass
  }

  /** Changing the `variable` or `unit` labels of rows never changes the
      guard's outcome, nor the combinations it reports. */
  lemma GuardIgnoresVariableAndUnit(t: Table, t': Table)
    requires t.names == t'.names && |t.rows| == |t'.rows|
    requires forall i, d :: 0 <= i < |t.rows| && d != "variable" && d != "unit" ==>
               Lookup(t.rows[i], d) == Lookup(t'.rows[i], d)
    ensures AssertOnlyWorkingOnVariableUnitVariations(t) == AssertOnlyWorkingOnVariableUnitVariations(t')
  {
    assert OtherDims(t) == OtherDims(t');
    forall i | 0 <= i < |t.rows|
      ensures Project(t.rows[i], OtherDims(t)) == Project(t'.rows[i], OtherDims(t'))
    {
      var dims := OtherDims(t);
      forall d | d in dims ensures Lookup(t.rows[i], d) == Lookup(t'.rows[i], d) {
        assert d != "variable" && d != "unit";
      }
    }
    assert Projections(t) == Projections(t');
  }

  /** Two rows with different `model` labels make the guard fail, and both
      labels appear among the reported combinations. */
  lemma GuardRejectsTwoModels(t: Table, i: nat, j: nat)
    requires "model" in t.names
    requires i < |t.rows| && j < |t.rows|
    requires "model" in t.rows[i] && "model" in t.rows[j]
    requires t.rows[i]["model"] != t.rows[j]["model"]
    ensures AssertOnlyWorkingOnVariableUnitVariations(t).Fail?
    ensures exists c :: c in AssertOnlyWorkingOnVariableUnitVariations(t).error &&
                        "model" in c && c["model"] == t.rows[i]["model"]
    ensures exists c :: c in AssertOnlyWorkingOnVariableUnitVariations(t).error &&
                        "model" in c && c["model"] == t.rows[j]["model"]
  {
    var ci := Project(t.rows[i], OtherDims(t));
    var cj := Project(t.rows[j], OtherDims(t));
    assert "model" in OtherDims(t);
    assert ci["model"] != cj["model"];
    assert Projections(t)[i] == ci && Projections(t)[j] == cj;
  }

  /** A table without rows passes: no combination is not more than one. */
  lemma GuardPassesEmptyTable(names: seq<Dim>)
    ensures AssertOnlyWorkingOnVariableUnitVariations(Table(names, [])) == Pass
  {
  }

  // ---------------------------------------------------------------------------
  // run_parallel
  // ---------------------------------------------------------------------------

  /** How worker processes are started: the fork context, the platform's
      default context, or a context the caller supplied. */
  datatype Context = Fork | PlatformDefault | Explicit(name: string)

  /** Why `run_parallel` raised: a call of the function raised `error`
      (re-raised unmodified), or the pool was asked for fewer than one worker
      (the executor's `ValueError`). */
  datatype RunError<E> = Raised(error: E) | MaxWorkersNotPositive

  /** What each call `f(x, *args, **kwargs)` gives, input by input. */
  function Calls<U, A, T, E>(f: (U, A) -> Result<T, E>, xs: seq<U>, args: A): seq<Result<T, E>>
  {
    seq(|xs|, i requires 0 <= i < |xs| => f(xs[i], args))
  }

  /** The outcome at position `k` is the first failure in `outcomes`. */
  predicate FirstFailureAt<T, E>(outcomes: seq<Result<T, E>>, k: int)
  {
    0 <= k < |outcomes| && outcomes[k].Failure? &&
    forall j :: 0 <= j < k ==> outcomes[j].Success?
  }

  /** Outcomes collected one after another in the order given: a list of all
      values, or the first raised exception met. */
  function Gather<T, E>(outcomes: seq<Result<T, E>>): (r: Result<seq<T>, E>)
    ensures r.Success? <==> forall k :: 0 <= k < |outcomes| ==> outcomes[k].Success?
    ensures r.Success? ==> (|r.value| == |outcomes| &&
              forall k :: 0 <= k < |outcomes| ==> r.value[k] == outcomes[k].value)
    ensures r.Failure? ==> exists k :: FirstFailureAt(outcomes, k) && outcomes[k].error == r.error
  {
    if outcomes == [] then Success([])
    else match outcomes[0]
      case Failure(e) => assert FirstFailureAt(outcomes, 0); Failure(e)
      case Success(v) =>
        match Gather(outcomes[1..])
        case Failure(e) =>
          assert exists k :: FirstFailureAt(outcomes, k) && outcomes[k].error == e by {
            var k :| FirstFailureAt(outcomes[1..], k) && outcomes[1..][k].error == e;
            assert FirstFailureAt(outcomes, k + 1);
          }
          Failure(e)
        case Success(vs) => Success([v] + vs)
  }

  /** When the first failure is at `k`, gathering re-raises its exception. */
  lemma GatherFailsAt<T, E>(outcomes: seq<Result<T, E>>, k: int)
    requires FirstFailureAt(outcomes, k)
    ensures Gather(outcomes) == Failure(outcomes[k].error)
  {
    var g := Gather(outcomes);
    var k' :| FirstFailureAt(outcomes, k') && outcomes[k'].error == g.error;
    assert outcomes[k'].Failure? && outcomes[k].Failure?;
  }

  /** When every outcome is a value, gathering returns those values in order. */
  lemma GatherSucceeds<T, E>(outcomes: seq<Result<T, E>>, vs: seq<T>)
    requires |vs| == |outcomes|
    requires forall k :: 0 <= k < |outcomes| ==> outcomes[k] == Success(vs[k])
    ensures Gather(outcomes) == Success(vs)
  {
    assert Gather(outcomes).value == vs;
  }

  /** `order` lists every index below `n` exactly once: `as_completed` yields
      each submitted future once, in the order the tasks finish. */
  predicate IsCompletionOrder(order: seq<nat>, n: nat)
  {
    && |order| == n
    && (forall k :: 0 <= k < n ==> order[k] < n)
    && Distinct(order)
    && (forall i: nat :: i < n ==> i in order)
  }

  /** The elements of `s` taken in the order `order` names them. */
  function Permute<X>(s: seq<X>, order: seq<nat>): seq<X>
    requires forall k :: 0 <= k < |order| ==> order[k] < |s|
  {
    seq(|order|, k requires 0 <= k < |order| => s[order[k]])
  }

  /** Removing the position that names the last index leaves a completion
      order for one element fewer. */
  lemma DropLast(order: seq<nat>, n: nat, j: nat)
    requires IsCompletionOrder(order, n + 1)
    requires j < |order| && order[j] == n
    ensures IsCompletionOrder(order[..j] + order[j + 1..], n)
    ensures forall k :: 0 <= k < |order| && k != j ==> order[k] < n
  {
    var rest := order[..j] + order[j + 1..];
    assert forall k :: 0 <= k < |rest| ==> rest[k] == (if k < j then order[k] else order[k + 1]);
    forall i: nat | i < n ensures i in rest {
      assert i in order;
      var p :| 0 <= p < |order| && order[p] == i;
      if p < j { assert rest[p] == i; } else { assert rest[p - 1] == i; }
    }
  }

  /** Permuting by a concatenation of orders concatenates the results. */
  lemma PermuteAppend<X>(s: seq<X>, a: seq<nat>, b: seq<nat>)
    requires forall k :: 0 <= k < |a| ==> a[k] < |s|
    requires forall k :: 0 <= k < |b| ==> b[k] < |s|
    ensures forall k :: 0 <= k < |a + b| ==> (a + b)[k] < |s|
    ensures Permute(s, a + b) == Permute(s, a) + Permute(s, b)
  {
  }

  /** An order that avoids the last index permutes `s` as it permutes `s`
      without its last element. */
  lemma PermuteDropLast<X>(s: seq<X>, a: seq<nat>)
    requires |s| > 0
    requires forall k :: 0 <= k < |a| ==> a[k] < |s| - 1
    ensures Permute(s, a) == Permute(s[..|s| - 1], a)
  {
  }

  /** Taking the last element out of a permutation: the rest is a permutation
      of the shorter sequence. */
  lemma PermuteSplitLast<X>(s: seq<X>, order: seq<nat>, j: nat)
    requires |s| > 0 && j < |order| && order[j] == |s| - 1
    requires forall k :: 0 <= k < |order| && k != j ==> order[k] < |s| - 1
    ensures var rest := order[..j] + order[j + 1..];
      && (forall k :: 0 <= k < |rest| ==> rest[k] < |s| - 1)
      && multiset(Permute(s, order)) == multiset(Permute(s[..|s| - 1], rest)) + multiset{s[|s| - 1]}
  {
    var n := |s| - 1;
    var front, back := order[..j], order[j + 1..];
    assert forall k :: 0 <= k < |front| ==> front[k] < n;
    assert forall k :: 0 <= k < |back| ==> back[k] < n;
    var s' := s[..n];
    assert order == front + [n] + back;
    PermuteAppend(s, front + [n], back);
    PermuteAppend(s, front, [n]);
    PermuteDropLast(s, front);
    PermuteDropLast(s, back);
    PermuteAppend(s', front, back);
    var p, q := Permute(s', front), Permute(s', back);
    assert Permute(s, order) == p + [s[n]] + q;
    assert Permute(s', front + back) == p + q;
  }

  /** Taking the elements in completion order only reorders them. */
  lemma {:induction false} PermutePreservesMultiset<X>(s: seq<X>, order: seq<nat>)
    requires IsCompletionOrder(order, |s|)
    ensures multiset(Permute(s, order)) == multiset(s)
    decreases |s|
  {
    if |s| > 0 {
      var n := |s| - 1;
      assert n in order;
      var j :| 0 <= j < |order| && order[j] == n;
      DropLast(order, n, j);
      PermuteSplitLast(s, order, j);
      PermutePreservesMultiset(s[..n], order[..j] + order[j + 1..]);
      assert s == s[..n] + [s[n]];
    }
  }

  /** Collecting in completion order succeeds exactly when collecting in input
      order does, and then yields the same values with the same multiplicities. */
  lemma GatherPermuted<T, E>(outcomes: seq<Result<T, E>>, order: seq<nat>)
    requires IsCompletionOrder(order, |outcomes|)
    ensures Gather(Permute(outcomes, order)).Success? <==> Gather(outcomes).Success?
    ensures Gather(outcomes).Success? ==>
              multiset(Gather(Permute(outcomes, order)).value) == multiset(Gather(outcomes).value)
  {
    var p := Permute(outcomes, order);
    var g := Gather(outcomes);
    if g.Success? {
      var vs := g.value;
      var pvs := Permute(vs, order);
      forall k | 0 <= k < |p| ensures p[k] == Success(pvs[k]) {
        assert outcomes[order[k]].Success?;
      }
      GatherSucceeds(p, pvs);
      PermutePreservesMultiset(vs, order);
    } else {
      var k :| FirstFailureAt(outcomes, k) && outcomes[k].error == g.error;
      assert k in order;
      var q :| 0 <= q < |order| && order[q] == k;
      assert p[q].Failure?;
    }
  }

  /** What gathering the calls in input order means for `f`. */
  lemma GatherCalls<U, A, T, E>(f: (U, A) -> Result<T, E>, xs: seq<U>, args: A)
    ensures var g := Gather(Calls(f, xs, args));
      && (g.Success? <==> forall i :: 0 <= i < |xs| ==> f(xs[i], args).Success?)
      && (g.Success? ==> |g.value| == |xs| && forall i :: 0 <= i < |xs| ==> g.value[i] == f(xs[i], args).value)
      && (g.Failure? ==> exists i :: FirstFailureAt(Calls(f, xs, args), i) && g.error == f(xs[i], args).error)
  {
    var c := Calls(f, xs, args);
    assert forall i :: 0 <= i < |xs| ==> c[i] == f(xs[i], args);
  }

  /** What gathering the calls in completion order means for `f`. */
  lemma GatherCallsPermuted<U, A, T, E>(f: (U, A) -> Result<T, E>, xs: seq<U>, args: A, completion: seq<nat>)
    requires IsCompletionOrder(completion, |xs|)
    ensures var g := Gather(Permute(Calls(f, xs, args), completion));
      && (g.Success? <==> forall i :: 0 <= i < |xs| ==> f(xs[i], args).Success?)
      && (g.Success? ==> |g.value| == |xs| && forall k :: 0 <= k < |xs| ==> g.value[k] == f(xs[completion[k]], args).value)
      && (g.Success? ==> multiset(g.value) == multiset(Gather(Calls(f, xs, args)).value))
      && (g.Failure? ==> exists k :: FirstFailureAt(Permute(Calls(f, xs, args), completion), k) &&
                                    g.error == f(xs[completion[k]], args).error)
  {
    var c := Calls(f, xs, args);
    var p := Permute(c, completion);
    assert forall k :: 0 <= k < |xs| ==> p[k] == f(xs[completion[k]], args);
    GatherCalls(f, xs, args);
    GatherPermuted(c, completion);
  }

  /** The serial branch: `f` is called on each input in turn and the first
      exception raised ends the run. */
  method MapSerially<U, A, T, E>(f: (U, A) -> Result<T, E>, xs: seq<U>, args: A)
    returns (res: Result<seq<T>, E>)
    ensures res == Gather(Calls(f, xs, args))
  {
    var acc: seq<T> := [];
    for i := 0 to |xs|
      invariant |acc| == i
      invariant forall k :: 0 <= k < i ==> f(xs[k], args).Success? && acc[k] == f(xs[k], args).value
    {
      var outcome := f(xs[i], args);
      if outcome.Failure? {
        GatherFailsAt(Calls(f, xs, args), i);
        return Failure(outcome.error);
      }
      acc := acc + [outcome.value];
    }
    GatherSucceeds(Calls(f, xs, args), acc);
    return Success(acc);
  }

  /** The pool branch: one task per input is submitted, then the outcomes are
      retrieved in completion order; the first exception retrieved is
      re-raised. */
  method MapInPool<U, A, T, E>(f: (U, A) -> Result<T, E>, xs: seq<U>, args: A, completion: seq<nat>)
    returns (res: Result<seq<T>, E>)
    requires IsCompletionOrder(completion, |xs|)
    ensures res == Gather(Permute(Calls(f, xs, args), completion))
  {
    var futures: seq<Result<T, E>> := [];
    for i := 0 to |xs|
      invariant futures == Calls(f, xs[..i], args)
    {
      futures := futures + [f(xs[i], args)];
    }
    assert xs[..|xs|] == xs;
    var acc: seq<T> := [];
    for k := 0 to |completion|
      invariant |acc| == k
      invariant forall j :: 0 <= j < k ==>
                  futures[completion[j]].Success? && acc[j] == futures[completion[j]].value
    {
      var outcome := futures[completion[k]];
      if outcome.Failure? {
        GatherFailsAt(Permute(futures, completion), k);
        return Failure(outcome.error);
      }
      acc := acc + [outcome.value];
    }
    GatherSucceeds(Permute(futures, completion), acc);
    return Success(acc);
  }

  /** `run_parallel(f, xs, desc, nProcesses, mpContext, *args, **kwargs)`.
      The platform's support for the fork context and the order in which the
      pool's tasks finish are parameters. `context` is the context the pool is
      started with (`None` when running serially). */
  method RunParallel<U, A, T, E>(f: (U, A) -> Result<T, E>, xs: seq<U>, nProcesses: int,
                                 mpContext: Option<Context>, forkAvailable: bool,
                                 completion: seq<nat>, args: A)
    returns (context: Option<Context>, res: Result<seq<T>, RunError<E>>)
    requires nProcesses > 1 ==> IsCompletionOrder(completion, |xs|)
    // context choice: only for the pool, and a supplied context is kept
    ensures nProcesses == 1 ==> context == None
    ensures nProcesses != 1 && mpContext.Some? ==> context == mpContext
    ensures nProcesses != 1 && mpContext.None? && forkAvailable ==> context == Some(Fork)
    ensures nProcesses != 1 && mpContext.None? && !forkAvailable ==> context == Some(PlatformDefault)
    // a pool needs at least one worker
    ensures nProcesses < 1 ==> res == Failure(MaxWorkersNotPositive)
    // any failing call fails the whole run, in both branches
    ensures nProcesses >= 1 ==> (res.Success? <==> forall i :: 0 <= i < |xs| ==> f(xs[i], args).Success?)
    ensures nProcesses == 1 && res.Failure? ==>
              exists i :: FirstFailureAt(Calls(f, xs, args), i) && res.error == Raised(f(xs[i], args).error)
    ensures nProcesses > 1 && res.Failure? ==>
              exists k :: FirstFailureAt(Permute(Calls(f, xs, args), completion), k) &&
                          res.error == Raised(f(xs[completion[k]], args).error)
    // serially: an in-order map
    ensures nProcesses == 1 && res.Success? ==>
              |res.value| == |xs| && forall i :: 0 <= i < |xs| ==> res.value[i] == f(xs[i], args).value
    // in the pool: completion order, a permutation of the serial result
    ensures nProcesses > 1 && res.Success? ==>
              |res.value| == |xs| &&
              forall k :: 0 <= k < |xs| ==> res.value[k] == f(xs[completion[k]], args).value
    ensures nProcesses > 1 && res.Success? ==>
              multiset(res.value) == multiset(Gather(Calls(f, xs, args)).value)
  {
    var r: Result<seq<T>, E>;
    if nProcesses == 1 {
      context := None;
      r := MapSerially(f, xs, args);
      GatherCalls(f, xs, args);
    } else {
      context := mpContext;
      if context.None? {
        context := if forkAvailable then Some(Fork) else Some(PlatformDefault);
      }
      if nProcesses < 1 {
        return context, Failure(MaxWorkersNotPositive);
      }
      r := MapInPool(f, xs, args, completion);
      GatherCallsPermuted(f, xs, args, completion);
    }
    res := match r
      case Success(vs) => Success(vs)
      case Failure(e) => Failure(Raised(e));
  }

  /** Doubling a number never raises. */
  function Double(x: int, u: ()): Result<int, string>
  {
    Success(2 * x)
  }

  /** Doubling [1, 2, 3] serially gives [2, 4, 6]; in a pool, the same values
      in whatever order the tasks finish. */
  lemma DoubleExample(completion: seq<nat>)
    requires IsCompletionOrder(completion, 3)
    ensures Gather(Calls(Double, [1, 2, 3], ())) == Success([2, 4, 6])
    ensures Gather(Permute(Calls(Double, [1, 2, 3], ()), completion)).Success?
    ensures multiset(Gather(Permute(Calls(Double, [1, 2, 3], ()), completion)).value) == multiset{2, 4, 6}
  {
    GatherSucceeds(Calls(Double, [1, 2, 3], ()), [2, 4, 6]);
    GatherPermuted(Calls(Double, [1, 2, 3], ()), completion);
  }
}
