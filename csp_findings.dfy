/**
 * csp.go's search as written, for any list of variables, including one that
 * names a variable twice. The completeness test compares the size of the
 * assignment with the length of the list, and the scan for an unassigned
 * variable falls back to Go's zero value 0 when every listed variable is bound.
 * With a repeated variable the two disagree. Say the list has `n` entries and
 * `m < n` distinct variables. Once those `m` are bound, the listed variables
 * alone cannot fill the assignment, so the search picks 0, declared or not:
 *   - when 0 has no domain, that branch yields no solution;
 *   - when 0 is listed, or `n > m + 1`, re-binding 0 leaves the assignment's
 *     size unchanged, and the search recurses forever unless a constraint
 *     rejects the binding;
 *   - only when `n == m + 1` and 0 is not listed does it return an assignment
 *     that binds the undeclared 0.
 *
 * `fuel` bounds the depth of recursion so that the definition is total; `None`
 * means the fuel ran out, `Some(r)` is what `search` returns.
 */
module CspFindings {
  import opened Csp
  import opened CspProperties

  function SearchAsWritten(vars: seq<int>, dom: DomainMap, idx: ConstraintIndex, a: Assignment, fuel: nat): Option<Option<Assignment>>
    decreases fuel, 0, 0
  {
    if |a| == |vars| then Some(Some(a))
    else if fuel == 0 then None
    else
      var v := PickVariable(vars, a);
      TryAsWritten(vars, dom, idx, a, v, DomainOf(dom, v), fuel - 1)
  }

  function TryAsWritten(vars: seq<int>, dom: DomainMap, idx: ConstraintIndex, a: Assignment, v: int, ds: seq<int>, fuel: nat): Option<Option<Assignment>>
    decreases fuel, 1, |ds|
  {
    if ds == [] then Some(None)
    else
      var ext := a[v := ds[0]];
      var r := if AllSatisfied(Lookup(idx, v), ext) then SearchAsWritten(vars, dom, idx, ext, fuel) else Some(None);
      if r == Some(None) then TryAsWritten(vars, dom, idx, a, v, ds[1..], fuel) else r
  }

  /**
   * Variables [0, 0] with domain {0: [5]}: once 0 is bound to 5 the assignment
   * has one entry, the list two; the scan finds no unbound variable and picks
   * 0 again, and binding it to 5 gives back the same assignment. No amount of
   * fuel lets the search finish.
   */
  lemma {:induction false} RepeatedZeroNeverReturns(fuel: nat)
    ensures SearchAsWritten([0, 0], map[0 := [5]], map[0 := []], map[0 := 5], fuel).None?
    ensures SearchAsWritten([0, 0], map[0 := [5]], map[0 := []], map[], fuel + 1).None?
  {
    var vars, dom, idx, a := [0, 0], map[0 := [5]], map[0 := []], map[0 := 5];
    if fuel > 0 {
      RepeatedZeroNeverReturns(fuel - 1);
      assert PickVariable(vars, a) == 0;
      assert a[0 := 5] == a;
      assert TryAsWritten(vars, dom, idx, a, 0, [5][1..], fuel - 1) == Some(None);
    }
    assert PickVariable(vars, map[]) == 0;
    assert map[][0 := 5] == a;
  }

  /**
   * Variables [1, 1] with domain {1: [5]} and no constraints: the assignment
   * {1: 5} binds every listed variable, yet once 1 is bound the scan picks the
   * undeclared variable 0, whose domain is empty, and the search reports that
   * there is no solution.
   */
  lemma RepeatedVariableMissesSolution(fuel: nat)
    requires fuel >= 2
    ensures SearchAsWritten([1, 1], map[1 := [5]], map[1 := []], map[], fuel) == Some(None)
    ensures Accepted([1, 1], map[1 := [5]], [], map[1 := 5])
  {
    RepeatedOneAccepted();
    var vars, dom, idx := [1, 1], map[1 := [5]], map[1 := []];
    var a := map[1 := 5];
    assert PickVariable(vars, map[]) == 1;
    assert map[][1 := 5] == a;
    assert PickVariable(vars, a) == 0;
    assert DomainOf(dom, 0) == [];
    assert SearchAsWritten(vars, dom, idx, a, fuel - 1) == Some(None);
    assert DomainOf(dom, 1) == [5] && [5][1..] == [];
    assert TryAsWritten(vars, dom, idx, map[], 1, [5], fuel - 1) == Some(None);
  }

  /**
   * Variables [1, 1] with domain {1: [5], 0: [7]} and no constraints: once 1
   * is bound the scan falls back to 0, which has a domain here; binding it
   * fills the assignment to the length of the list, and the search returns
   * {1: 5, 0: 7}, a binding of a variable nobody declared.
   */
  lemma RepeatedVariableBindsUndeclared()
    ensures SearchAsWritten([1, 1], map[1 := [5], 0 := [7]], map[1 := []], map[], 3)
            == Some(Some(map[1 := 5, 0 := 7]))
    ensures 0 !in Elems([1, 1])
  {
    var vars, dom, idx := [1, 1], map[1 := [5], 0 := [7]], map[1 := []];
    var a, b := map[1 := 5], map[1 := 5, 0 := 7];
    assert Elems(vars) == {1} by {
      assert vars[0] == 1 && vars[1] == 1;
    }
    assert PickVariable(vars, map[]) == 1;
    assert map[][1 := 5] == a;
    assert PickVariable(vars, a) == 0;
    assert a[0 := 7] == b && |b| == 2;
    assert SearchAsWritten(vars, dom, idx, b, 1) == Some(Some(b));
    assert DomainOf(dom, 0) == [7];
    assert TryAsWritten(vars, dom, idx, a, 0, [7], 1) == Some(Some(b));
    assert SearchAsWritten(vars, dom, idx, a, 2) == Some(Some(b));
    assert DomainOf(dom, 1) == [5];
    assert TryAsWritten(vars, dom, idx, map[], 1, [5], 2) == Some(Some(b));
  }

  /**
   * Variables [1, 1, 1] with domain {1: [5], 0: [7]}: binding 1 and then the
   * undeclared 0 gives an assignment of size 2 against a list of length 3, so
   * the search picks 0 again and re-binds it forever.
   */
  lemma {:induction false} TripleRepeatNeverReturns(fuel: nat)
    ensures SearchAsWritten([1, 1, 1], map[1 := [5], 0 := [7]], map[1 := []], map[1 := 5, 0 := 7], fuel).None?
    ensures SearchAsWritten([1, 1, 1], map[1 := [5], 0 := [7]], map[1 := []], map[], fuel + 2).None?
  {
    var vars, dom, idx := [1, 1, 1], map[1 := [5], 0 := [7]], map[1 := []];
    var a, b := map[1 := 5], map[1 := 5, 0 := 7];
    assert PickVariable(vars, b) == 0;
    assert DomainOf(dom, 0) == [7] && [7][1..] == [];
    if fuel > 0 {
      TripleRepeatNeverReturns(fuel - 1);
      assert b[0 := 7] == b;
      assert TryAsWritten(vars, dom, idx, b, 0, [7], fuel - 1).None?;
    }
    assert PickVariable(vars, map[]) == 1;
    assert map[][1 := 5] == a;
    assert PickVariable(vars, a) == 0;
    assert a[0 := 7] == b;
    assert TryAsWritten(vars, dom, idx, a, 0, [7], fuel).None?;
    assert SearchAsWritten(vars, dom, idx, a, fuel + 1).None?;
    assert DomainOf(dom, 1) == [5];
    assert TryAsWritten(vars, dom, idx, map[], 1, [5], fuel + 1).None?;
  }

  lemma RepeatedOneAccepted()
    ensures Accepted([1, 1], map[1 := [5]], [], map[1 := 5])
  {
    var vars, dom, a := [1, 1], map[1 := [5]], map[1 := 5];
    assert Elems(vars) == {1} by {
      assert vars[0] == 1 && vars[1] == 1;
    }
    forall j | 0 <= j < |vars|
      ensures a[vars[j]] in DomainOf(dom, vars[j])
    {
      assert vars[j] == 1;
    }
  }

  /**
   * With the variables distinct, as BacktrackingCSP's contract requires, the
   * search as written returns, given as much fuel as there are unbound
   * variables, exactly what the model's search returns.
   */
  lemma {:induction false} AsWrittenAgrees(vars: seq<int>, dom: DomainMap, idx: ConstraintIndex, a: Assignment, fuel: nat)
    requires Distinct(vars) && BindsPrefix(vars, a) && fuel >= |vars| - |a|
    requires a.Keys <= Elems(vars)
    ensures SearchAsWritten(vars, dom, idx, a, fuel) == Some(FirstSolution(vars, dom, idx, a))
    decreases |vars| - |a|, 1, 0
  {
    if |a| < |vars| {
      PickOnPrefix(vars, a);
      var v := vars[|a|];
      Unfold(vars, dom, idx, a);
      TryAgrees(vars, dom, idx, a, DomainOf(dom, v), fuel - 1);
    }
  }

  lemma {:induction false} TryAgrees(vars: seq<int>, dom: DomainMap, idx: ConstraintIndex, a: Assignment, ds: seq<int>, fuel: nat)
    requires Distinct(vars) && BindsPrefix(vars, a) && |a| < |vars| && vars[|a|] !in a
    requires fuel >= |vars| - |a| - 1
    requires a.Keys <= Elems(vars) && vars[|a|] in Elems(vars)
    ensures TryAsWritten(vars, dom, idx, a, vars[|a|], ds, fuel)
            == Some(FirstSolutionFrom(vars, dom, idx, a, vars[|a|], ds))
    decreases |vars| - |a|, 0, |ds|
  {
    if ds != [] {
      var v := vars[|a|];
      var ext := a[v := ds[0]];
      ExtendPrefix(vars, a, ds[0]);
      PrefixKeys(vars, |ext|);
      if AllSatisfied(Lookup(idx, v), ext) {
        AsWrittenAgrees(vars, dom, idx, ext, fuel);
      }
      TryAgrees(vars, dom, idx, a, ds[1..], fuel);
    }
  }

  // ---------------------------------------------------------------------------
  // The intended behaviour: a repeated variable is ignored
  // ---------------------------------------------------------------------------

  /** The list with every repetition dropped, each variable kept at its first position. */
  function Dedup(vars: seq<int>): (r: seq<int>)
    ensures Distinct(r) && Elems(r) == Elems(vars)
  {
    if vars == [] then []
    else
      var p := Dedup(vars[..|vars| - 1]);
      var x := vars[|vars| - 1];
      assert Elems(vars) == Elems(vars[..|vars| - 1]) + {x} by {
        assert vars == vars[..|vars| - 1] + [x];
      }
      if x in p then p
      else
        var r := p + [x];
        assert r[..|p|] == p && r[|p|] == x;
        assert Elems(r) == Elems(p) + {x};
        r
  }

  /** A list without repetitions is its own de-duplication. */
  lemma {:induction false} DedupDistinct(vars: seq<int>)
    requires Distinct(vars)
    ensures Dedup(vars) == vars
  {
    if vars != [] {
      var init := vars[..|vars| - 1];
      DedupDistinct(init);
      assert vars[|vars| - 1] !in Elems(init);
      assert vars == init + [vars[|vars| - 1]];
    }
  }

  /** BacktrackingCSP over any list: the search runs on the list without its repetitions. */
  function SolveListed(vars: seq<int>, dom: DomainMap, cs: seq<Constraint>): Result<Option<Assignment>>
  {
    Solve(Dedup(vars), dom, cs)
  }

  /** The loop that drops repeated variables before the engine runs. */
  method DropRepeats(vars: seq<int>) returns (r: seq<int>)
    ensures r == Dedup(vars)
  {
    r := [];
    for i := 0 to |vars|
      invariant r == Dedup(vars[..i])
    {
      assert vars[..i + 1][..i] == vars[..i];
      if vars[i] !in r {
        r := r + [vars[i]];
      }
    }
    assert vars[..|vars|] == vars;
  }

  /** The corrected engine: BacktrackingCSP on the list without repetitions. */
  method BacktrackingCSPListed(vars: seq<int>, dom: DomainMap, cs: seq<Constraint>) returns (r: Result<Option<Assignment>>)
    ensures r == SolveListed(vars, dom, cs)
  {
    var once := DropRepeats(vars);
    r := BacktrackingCSP(once, dom, cs);
  }

  /** The corrected engine agrees with BacktrackingCSP on lists without repetitions. */
  lemma SolveListedAgrees(vars: seq<int>, dom: DomainMap, cs: seq<Constraint>)
    requires Distinct(vars)
    ensures SolveListed(vars, dom, cs) == Solve(vars, dom, cs)
  {
    DedupDistinct(vars);
  }

  /** On any list the corrected engine fails exactly when a listed domain is missing or empty. */
  lemma SolveListedErrors(vars: seq<int>, dom: DomainMap, cs: seq<Constraint>)
    ensures SolveListed(vars, dom, cs).Err? <==> exists i :: 0 <= i < |vars| && Unusable(dom, vars[i])
  {
    var once := Dedup(vars);
    SolveErrors(once, dom, cs);
    if exists i :: 0 <= i < |vars| && Unusable(dom, vars[i]) {
      var i :| 0 <= i < |vars| && Unusable(dom, vars[i]);
      assert vars[i] in Elems(once);
    }
    if exists i :: 0 <= i < |once| && Unusable(dom, once[i]) {
      var i :| 0 <= i < |once| && Unusable(dom, once[i]);
      assert once[i] in Elems(vars);
    }
  }

  /** On any list a solution of the corrected engine binds exactly the listed variables. */
  lemma SolveListedBinds(vars: seq<int>, dom: DomainMap, cs: seq<Constraint>)
    requires SolveListed(vars, dom, cs).Ok? && SolveListed(vars, dom, cs).value.Some?
    ensures SolveListed(vars, dom, cs).value.value.Keys == Elems(vars)
  {
    SolveSound(Dedup(vars), dom, cs);
  }

  /**
   * Variables [1, 1] with domain {1: [5]} and no constraints: the corrected
   * engine returns {1: 5}, where the search as written reports no solution.
   */
  lemma RepeatedVariableSolved()
    ensures SolveListed([1, 1], map[1 := [5]], []) == Ok(Some(map[1 := 5]))
  {
    var vars, dom := [1, 1], map[1 := [5]];
    assert Dedup([1]) == [1];
    assert [1, 1][..1] == [1];
    assert Dedup(vars) == [1];
    var idx := IndexFor([], [1]);
    assert Lookup(idx, 1) == [];
    assert PickVariable([1], map[]) == 1;
    assert map[][1 := 5] == map[1 := 5];
    assert FirstSolution([1], dom, idx, map[1 := 5]) == Some(map[1 := 5]);
    assert Attempt([1], dom, idx, map[], 1, 5) == Some(map[1 := 5]);
    assert FirstSolutionFrom([1], dom, idx, map[], 1, [5]) == Some(map[1 := 5]);
  }
}
