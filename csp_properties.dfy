/**
 * What the search of csp.go promises, stated about its specification
 * FirstSolution and, through BacktrackingCSP's contract, about Solve.
 *
 * The search only ever builds assignments that bind a prefix of the declared
 * variables (it always extends the first unbound one), and when it binds
 * `vars[k]` it checks the constraints indexed under `vars[k]` against the
 * assignment of `vars[..k + 1]`. An assignment "passes" from step `k` when it
 * binds every declared variable, and for every later step its value lies in the
 * domain and the checks of that step accept it.
 */
module CspProperties {
  import opened Csp

  /** `a` binds exactly the first |a| declared variables. */
  predicate BindsPrefix(vars: seq<int>, a: Assignment)
  {
    |a| <= |vars| && a.Keys == Elems(vars[..|a|])
  }

  /** The bindings of `r` for the first `k` declared variables. */
  function Prefix(r: Assignment, vars: seq<int>, k: nat): Assignment
    requires k <= |vars|
  {
    map v | v in r && v in vars[..k] :: r[v]
  }

  /** `r` binds every declared variable and passes each check the search makes from step `k` on. */
  predicate Passes(vars: seq<int>, dom: DomainMap, idx: ConstraintIndex, r: Assignment, k: nat)
    requires k <= |vars|
  {
    r.Keys == Elems(vars)
    && forall j :: k <= j < |vars| ==>
         r[vars[j]] in DomainOf(dom, vars[j]) && AllSatisfied(Lookup(idx, vars[j]), Prefix(r, vars, j + 1))
  }

  lemma PrefixKeys(vars: seq<int>, k: nat)
    requires k <= |vars|
    ensures Elems(vars[..k]) <= Elems(vars)
  {
    assert forall x :: x in vars[..k] ==> x in vars;
  }

  /** On a prefix assignment the variable picked next is `vars[|a|]`, and it is unbound. */
  lemma PickOnPrefix(vars: seq<int>, a: Assignment)
    requires Distinct(vars) && BindsPrefix(vars, a) && |a| < |vars|
    ensures PickVariable(vars, a) == vars[|a|] && vars[|a|] !in a
  {
    DistinctAt(vars, |a|);
    PickVariableFirstUnbound(vars, a);
    var k :| 0 <= k < |vars| && vars[k] == PickVariable(vars, a) && vars[k] !in a
             && forall j :: 0 <= j < k ==> vars[j] in a;
  }

  /** Extending a prefix assignment by the next variable gives the next prefix assignment. */
  lemma ExtendPrefix(vars: seq<int>, a: Assignment, d: int)
    requires BindsPrefix(vars, a) && |a| < |vars| && vars[|a|] !in a
    ensures BindsPrefix(vars, a[vars[|a|] := d]) && |a[vars[|a|] := d]| == |a| + 1
  {
    var e := a[vars[|a|] := d];
    assert e.Keys == a.Keys + {vars[|a|]};
    assert |e| == |a| + 1;
    TakeSnoc(vars, |a|);
  }

  /** Restricting to `k + 1` variables adds the binding of `vars[k]` to the restriction to `k`. */
  lemma PrefixStep(r: Assignment, vars: seq<int>, k: nat)
    requires Distinct(vars) && k < |vars| && vars[k] in r
    ensures vars[k] !in Prefix(r, vars, k)
    ensures Prefix(r, vars, k + 1) == Prefix(r, vars, k)[vars[k] := r[vars[k]]]
  {
    DistinctAt(vars, k);
    PrefixSnoc(r, vars, k);
  }

  lemma PrefixSnoc(r: Assignment, vars: seq<int>, k: nat)
    requires k < |vars| && vars[k] in r
    ensures Prefix(r, vars, k + 1) == Prefix(r, vars, k)[vars[k] := r[vars[k]]]
  {
    assert vars[..k + 1] == vars[..k] + [vars[k]];
    var p, q := Prefix(r, vars, k), Prefix(r, vars, k + 1);
    assert forall v :: v in q <==> v in p || v == vars[k];
  }

  /** Two maps without `v` that agree once `v` is bound are equal. */
  lemma UpdateCancel(m1: Assignment, m2: Assignment, v: int, x: int, y: int)
    requires v !in m1 && v !in m2 && m1[v := x] == m2[v := y]
    ensures m1 == m2
  {
    assert m1 == m1[v := x] - {v};
    assert m2 == m2[v := y] - {v};
  }

  /** An assignment whose restriction to `k + 1` variables extends `a` by `d` restricts to `a` and binds `d`. */
  lemma ExtensionKeeps(vars: seq<int>, a: Assignment, s: Assignment, d: int)
    requires Distinct(vars) && |a| < |vars| && vars[|a|] !in a && vars[|a|] in s
    requires Prefix(s, vars, |a| + 1) == a[vars[|a|] := d]
    ensures Prefix(s, vars, |a|) == a && s[vars[|a|]] == d
  {
    var v := vars[|a|];
    var p := Prefix(s, vars, |a|);
    PrefixStep(s, vars, |a|);
    UpdateCancel(p, a, v, s[v], d);
    assert p[v := s[v]][v] == s[v];
  }

  /** The restriction of `s` to `k + 1` variables extends its restriction `a` to `k` by the binding of `vars[k]`. */
  lemma ExtensionOf(vars: seq<int>, a: Assignment, s: Assignment)
    requires Distinct(vars) && |a| < |vars| && vars[|a|] in s && Prefix(s, vars, |a|) == a
    ensures Prefix(s, vars, |a| + 1) == a[vars[|a|] := s[vars[|a|]]]
  {
    PrefixStep(s, vars, |a|);
  }

  /** A complete prefix assignment binds every declared variable and is its own full restriction. */
  lemma CompletePrefix(vars: seq<int>, a: Assignment)
    requires BindsPrefix(vars, a) && |a| == |vars|
    ensures a.Keys == Elems(vars) && Prefix(a, vars, |a|) == a
  {
    assert vars[..|vars|] == vars;
  }

  // ---------------------------------------------------------------------------
  // Soundness: what the search returns passes every check
  // ---------------------------------------------------------------------------

  /**
   * A solution returned from a prefix assignment `a` keeps the bindings of `a`
   * and passes every check of the steps after it.
   */
  lemma {:induction false} FirstSolutionSound(vars: seq<int>, dom: DomainMap, idx: ConstraintIndex, a: Assignment)
    requires Distinct(vars) && BindsPrefix(vars, a)
    requires a.Keys <= Elems(vars)
    requires FirstSolution(vars, dom, idx, a).Some?
    ensures Passes(vars, dom, idx, FirstSolution(vars, dom, idx, a).value, |a|)
    ensures Prefix(FirstSolution(vars, dom, idx, a).value, vars, |a|) == a
    decreases |vars| - |a|, 1, 0
  {
    if |a| == |vars| {
      CompletePrefix(vars, a);
    } else {
      PickOnPrefix(vars, a);
      var v := vars[|a|];
      var ds := DomainOf(dom, v);
      assert FirstSolution(vars, dom, idx, a) == FirstSolutionFrom(vars, dom, idx, a, v, ds);
      FromSound(vars, dom, idx, a, ds);
    }
  }

  /** The same for the loop over the values `ds` of the next variable. */
  lemma {:induction false} FromSound(vars: seq<int>, dom: DomainMap, idx: ConstraintIndex, a: Assignment, ds: seq<int>)
    requires Distinct(vars) && BindsPrefix(vars, a) && |a| < |vars| && vars[|a|] !in a
    requires a.Keys <= Elems(vars) && vars[|a|] in Elems(vars)
    requires FirstSolutionFrom(vars, dom, idx, a, vars[|a|], ds).Some?
    ensures var r := FirstSolutionFrom(vars, dom, idx, a, vars[|a|], ds).value;
            Passes(vars, dom, idx, r, |a| + 1) && Prefix(r, vars, |a|) == a
            && r[vars[|a|]] in ds && AllSatisfied(Lookup(idx, vars[|a|]), Prefix(r, vars, |a| + 1))
    decreases |vars| - |a|, 0, |ds|
  {
    var v := vars[|a|];
    var ext := a[v := ds[0]];
    ExtendPrefix(vars, a, ds[0]);
    PrefixKeys(vars, |ext|);
    var r := Attempt(vars, dom, idx, a, v, ds[0]);
    if r.Some? {
      assert FirstSolutionFrom(vars, dom, idx, a, v, ds) == r;
      HeadSound(vars, dom, idx, a, ds[0]);
    } else {
      assert FirstSolutionFrom(vars, dom, idx, a, v, ds) == FirstSolutionFrom(vars, dom, idx, a, v, ds[1..]);
      FromSound(vars, dom, idx, a, ds[1..]);
      var s := FirstSolutionFrom(vars, dom, idx, a, v, ds[1..]).value;
      assert s[v] in ds[1..];
      assert ds == [ds[0]] + ds[1..];
    }
  }

  /** The value `d` is accepted and the search below it succeeds: its solution binds `d` after `a`. */
  lemma {:induction false} HeadSound(vars: seq<int>, dom: DomainMap, idx: ConstraintIndex, a: Assignment, d: int)
    requires Distinct(vars) && BindsPrefix(vars, a) && |a| < |vars| && vars[|a|] !in a
    requires a[vars[|a|] := d].Keys <= Elems(vars)
    requires AllSatisfied(Lookup(idx, vars[|a|]), a[vars[|a|] := d])
    requires FirstSolution(vars, dom, idx, a[vars[|a|] := d]).Some?
    ensures var r := FirstSolution(vars, dom, idx, a[vars[|a|] := d]).value;
            Passes(vars, dom, idx, r, |a| + 1) && Prefix(r, vars, |a|) == a
            && r[vars[|a|]] == d && AllSatisfied(Lookup(idx, vars[|a|]), Prefix(r, vars, |a| + 1))
    decreases |vars| - |a|, 0, 0
  {
    var ext := a[vars[|a|] := d];
    ExtendPrefix(vars, a, d);
    FirstSolutionSound(vars, dom, idx, ext);
    ExtensionKeeps(vars, a, FirstSolution(vars, dom, idx, ext).value, d);
  }

  // ---------------------------------------------------------------------------
  // Completeness: the search misses no solution
  // ---------------------------------------------------------------------------

  /** When some assignment extending `a` passes every later check, the search from `a` succeeds. */
  lemma {:induction false} FirstSolutionComplete(vars: seq<int>, dom: DomainMap, idx: ConstraintIndex, a: Assignment, s: Assignment)
    requires Distinct(vars) && BindsPrefix(vars, a)
    requires a.Keys <= Elems(vars)
    requires Passes(vars, dom, idx, s, |a|) && Prefix(s, vars, |a|) == a
    ensures FirstSolution(vars, dom, idx, a).Some?
    decreases |vars| - |a|, 1, 0
  {
    if |a| < |vars| {
      PickOnPrefix(vars, a);
      var v := vars[|a|];
      assert FirstSolution(vars, dom, idx, a) == FirstSolutionFrom(vars, dom, idx, a, v, DomainOf(dom, v));
      FromComplete(vars, dom, idx, a, s, DomainOf(dom, v));
    }
  }

  /** The same for the loop over the values `ds`, when the value of `s` is among them. */
  lemma {:induction false} FromComplete(vars: seq<int>, dom: DomainMap, idx: ConstraintIndex, a: Assignment, s: Assignment, ds: seq<int>)
    requires Distinct(vars) && BindsPrefix(vars, a) && |a| < |vars| && vars[|a|] !in a
    requires a.Keys <= Elems(vars) && vars[|a|] in Elems(vars)
    requires Passes(vars, dom, idx, s, |a|) && Prefix(s, vars, |a|) == a
    requires s[vars[|a|]] in ds
    ensures FirstSolutionFrom(vars, dom, idx, a, vars[|a|], ds).Some?
    decreases |vars| - |a|, 0, |ds|
  {
    var v := vars[|a|];
    var ext := a[v := ds[0]];
    ExtendPrefix(vars, a, ds[0]);
    PrefixKeys(vars, |ext|);
    var r := Attempt(vars, dom, idx, a, v, ds[0]);
    if r.None? {
      if ds[0] == s[v] {
        ExtensionOf(vars, a, s);
        FirstSolutionComplete(vars, dom, idx, ext, s);
      }
      assert s[v] in ds[1..];
      FromComplete(vars, dom, idx, a, s, ds[1..]);
    }
  }

  // ---------------------------------------------------------------------------
  // Value order: the first success among the values, in the order given
  // ---------------------------------------------------------------------------

  /** The loop over the values fails exactly when every attempt fails. */
  lemma {:induction false} AllAttemptsFail(vars: seq<int>, dom: DomainMap, idx: ConstraintIndex, a: Assignment, v: int, ds: seq<int>)
    requires Distinct(vars) && a.Keys <= Elems(vars) && v in Elems(vars) && v !in a
    ensures FirstSolutionFrom(vars, dom, idx, a, v, ds).None?
            <==> forall j :: 0 <= j < |ds| ==> Attempt(vars, dom, idx, a, v, ds[j]).None?
  {
    if ds != [] {
      AllAttemptsFail(vars, dom, idx, a, v, ds[1..]);
      assert forall j :: 1 <= j < |ds| ==> ds[j] == ds[1..][j - 1];
    }
  }

  /**
   * When the loop over the values succeeds it returns the result of the first
   * successful attempt, and every value before that one failed.
   */
  lemma {:induction false} FirstSuccessWins(vars: seq<int>, dom: DomainMap, idx: ConstraintIndex, a: Assignment, v: int, ds: seq<int>)
    requires Distinct(vars) && a.Keys <= Elems(vars) && v in Elems(vars) && v !in a
    requires FirstSolutionFrom(vars, dom, idx, a, v, ds).Some?
    ensures exists i :: 0 <= i < |ds| && Attempt(vars, dom, idx, a, v, ds[i]) == FirstSolutionFrom(vars, dom, idx, a, v, ds)
                        && forall j :: 0 <= j < i ==> Attempt(vars, dom, idx, a, v, ds[j]).None?
  {
    var r := FirstSolutionFrom(vars, dom, idx, a, v, ds);
    if Attempt(vars, dom, idx, a, v, ds[0]).None? {
      assert r == FirstSolutionFrom(vars, dom, idx, a, v, ds[1..]);
      FirstSuccessWins(vars, dom, idx, a, v, ds[1..]);
      var i :| 0 <= i < |ds| - 1 && Attempt(vars, dom, idx, a, v, ds[1..][i]) == r
               && forall j :: 0 <= j < i ==> Attempt(vars, dom, idx, a, v, ds[1..][j]).None?;
      assert ds[1..][i] == ds[i + 1];
      assert forall j :: 1 <= j < i + 1 ==> ds[j] == ds[1..][j - 1];
    } else {
      assert Attempt(vars, dom, idx, a, v, ds[0]) == r;
    }
  }

  // ---------------------------------------------------------------------------
  // Only the entries of the declared variables are read
  // ---------------------------------------------------------------------------

  /** Two indexes that agree on the declared variables give the same search. */
  lemma {:induction false} SearchReadsDeclared(vars: seq<int>, dom: DomainMap, idx1: ConstraintIndex, idx2: ConstraintIndex, a: Assignment)
    requires Distinct(vars) && a.Keys <= Elems(vars)
    requires forall v :: v in vars ==> Lookup(idx1, v) == Lookup(idx2, v)
    ensures FirstSolution(vars, dom, idx1, a) == FirstSolution(vars, dom, idx2, a)
    decreases Elems(vars) - a.Keys, 1, 0
  {
    if |a| != |vars| {
      Unfold(vars, dom, idx1, a);
      Unfold(vars, dom, idx2, a);
      var v := PickVariable(vars, a);
      FromReadsDeclared(vars, dom, idx1, idx2, a, v, DomainOf(dom, v));
    }
  }

  lemma {:induction false} FromReadsDeclared(vars: seq<int>, dom: DomainMap, idx1: ConstraintIndex, idx2: ConstraintIndex, a: Assignment, v: int, ds: seq<int>)
    requires Distinct(vars) && a.Keys <= Elems(vars) && v in Elems(vars) && v !in a
    requires forall v :: v in vars ==> Lookup(idx1, v) == Lookup(idx2, v)
    ensures FirstSolutionFrom(vars, dom, idx1, a, v, ds) == FirstSolutionFrom(vars, dom, idx2, a, v, ds)
    decreases Elems(vars) - a.Keys, 0, |ds|
  {
    if ds != [] {
      var ext := a[v := ds[0]];
      assert ext.Keys == a.Keys + {v};
      assert Lookup(idx1, v) == Lookup(idx2, v);
      if AllSatisfied(Lookup(idx1, v), ext) {
        SearchReadsDeclared(vars, dom, idx1, idx2, ext);
      }
      FromReadsDeclared(vars, dom, idx1, idx2, a, v, ds[1..]);
    }
  }

  // ---------------------------------------------------------------------------
  // The index built from the constraint list
  // ---------------------------------------------------------------------------

  /** A variable no constraint declares has no indexed constraints. */
  lemma {:induction false} UndeclaredEmpty(cs: seq<Constraint>, v: int)
    requires v !in Declared(cs)
    ensures Indexed(cs, v) == []
  {
    if cs != [] {
      UndeclaredEmpty(cs[..|cs| - 1], v);
      assert v !in cs[|cs| - 1].vars;
    }
  }

  /** Reading the finished index under any variable gives the constraints declaring it. */
  lemma IndexForLookup(cs: seq<Constraint>, vars: seq<int>, v: int)
    ensures Lookup(IndexFor(cs, vars), v) == Indexed(cs, v)
  {
    if v !in Declared(cs) {
      UndeclaredEmpty(cs, v);
    }
  }

  lemma {:induction false} CopiesSatisfied(c: Constraint, n: nat, a: Assignment)
    ensures AllSatisfied(Copies(c, n), a) <==> n == 0 || c.sat(a)
  {
    if n > 0 {
      CopiesSatisfied(c, n - 1, a);
      assert Copies(c, n)[n - 1] == c;
      assert forall i :: 0 <= i < n - 1 ==> Copies(c, n)[i] == Copies(c, n - 1)[i];
    }
  }

  /**
   * Every constraint indexed under `v` accepts `a` exactly when every
   * constraint of the list that declares `v` accepts it.
   */
  lemma {:induction false} IndexedSatisfied(cs: seq<Constraint>, v: int, a: Assignment)
    ensures AllSatisfied(Indexed(cs, v), a) <==> forall i :: 0 <= i < |cs| && v in cs[i].vars ==> cs[i].sat(a)
  {
    if cs != [] {
      var init, last := cs[..|cs| - 1], cs[|cs| - 1];
      var n := multiset(last.vars)[v];
      IndexedSatisfied(init, v, a);
      CopiesSatisfied(last, n, a);
      var front, back := Indexed(init, v), Copies(last, n);
      assert Indexed(cs, v) == front + back;
      assert AllSatisfied(front + back, a) <==> AllSatisfied(front, a) && AllSatisfied(back, a) by {
        assert forall i :: 0 <= i < |front| ==> (front + back)[i] == front[i];
        assert forall i :: 0 <= i < |back| ==> (front + back)[|front| + i] == back[i];
      }
      assert n > 0 <==> v in last.vars;
      assert forall i :: 0 <= i < |init| ==> cs[i] == init[i];
    }
  }

  /**
   * A constraint is in the entry of `v` exactly when it is one of the list's
   * constraints that declare `v`.
   */
  lemma {:induction false} IndexedContains(cs: seq<Constraint>, v: int, c: Constraint)
    ensures c in Indexed(cs, v) <==> exists i :: 0 <= i < |cs| && cs[i] == c && v in cs[i].vars
  {
    if cs != [] {
      var init, last := cs[..|cs| - 1], cs[|cs| - 1];
      var n := multiset(last.vars)[v];
      IndexedContains(init, v, c);
      assert Indexed(cs, v) == Indexed(init, v) + Copies(last, n);
      assert c in Copies(last, n) <==> n > 0 && c == last by {
        if n > 0 {
          CopiesMember(last, n);
        }
      }
      assert forall i :: 0 <= i < |init| ==> cs[i] == init[i];
      if exists i :: 0 <= i < |cs| && cs[i] == c && v in cs[i].vars {
        var i :| 0 <= i < |cs| && cs[i] == c && v in cs[i].vars;
        if i < |init| {
          assert init[i] == c;
        }
      }
    }
  }

  lemma {:induction false} CopiesMember(c: Constraint, n: nat)
    requires n > 0
    ensures forall x :: x in Copies(c, n) <==> x == c
  {
    if n > 1 {
      CopiesMember(c, n - 1);
    }
    assert Copies(c, n) == Copies(c, n - 1) + [c];
  }

  // ---------------------------------------------------------------------------
  // BacktrackingCSP end to end
  // ---------------------------------------------------------------------------

  /**
   * What a solution of the engine is, in terms of the constraint list: it binds
   * every declared variable to a value of its domain, and for each step `j`
   * every constraint declaring `vars[j]` accepts the bindings of `vars[..j + 1]`
   * (the assignment as it stood when `vars[j]` was bound).
   */
  predicate Accepted(vars: seq<int>, dom: DomainMap, cs: seq<Constraint>, r: Assignment)
  {
    r.Keys == Elems(vars)
    && forall j :: 0 <= j < |vars| ==>
         r[vars[j]] in DomainOf(dom, vars[j])
         && forall i :: 0 <= i < |cs| && vars[j] in cs[i].vars ==> cs[i].sat(Prefix(r, vars, j + 1))
  }

  /** What `Accepted` says about step `j` and a constraint `i` declaring `vars[j]`. */
  lemma AcceptedAt(vars: seq<int>, dom: DomainMap, cs: seq<Constraint>, r: Assignment, j: nat, i: nat)
    requires Accepted(vars, dom, cs, r)
    requires j < |vars| && i < |cs| && vars[j] in cs[i].vars
    ensures r[vars[j]] in DomainOf(dom, vars[j]) && cs[i].sat(Prefix(r, vars, j + 1))
  {
  }

  /** At step `j`, the checks of the finished index are the checks of the constraints declaring `vars[j]`. */
  lemma StepChecks(vars: seq<int>, cs: seq<Constraint>, r: Assignment, j: nat)
    requires j < |vars|
    ensures AllSatisfied(Lookup(IndexFor(cs, vars), vars[j]), Prefix(r, vars, j + 1))
            <==> forall i :: 0 <= i < |cs| && vars[j] in cs[i].vars ==> cs[i].sat(Prefix(r, vars, j + 1))
  {
    IndexForLookup(cs, vars, vars[j]);
    IndexedSatisfied(cs, vars[j], Prefix(r, vars, j + 1));
  }

  /** Passing every check of the finished index is being accepted by the constraint list. */
  lemma PassesAccepted(vars: seq<int>, dom: DomainMap, cs: seq<Constraint>, r: Assignment)
    requires Passes(vars, dom, IndexFor(cs, vars), r, 0)
    ensures Accepted(vars, dom, cs, r)
  {
    forall j | 0 <= j < |vars|
      ensures forall i :: 0 <= i < |cs| && vars[j] in cs[i].vars ==> cs[i].sat(Prefix(r, vars, j + 1))
    {
      StepChecks(vars, cs, r, j);
    }
  }

  /** Being accepted by the constraint list is passing every check of the finished index. */
  lemma AcceptedPasses(vars: seq<int>, dom: DomainMap, cs: seq<Constraint>, r: Assignment)
    requires Accepted(vars, dom, cs, r)
    ensures Passes(vars, dom, IndexFor(cs, vars), r, 0)
  {
    forall j | 0 <= j < |vars|
      ensures AllSatisfied(Lookup(IndexFor(cs, vars), vars[j]), Prefix(r, vars, j + 1))
    {
      StepChecks(vars, cs, r, j);
    }
  }

  /** The prefix of all the variables of an assignment binding exactly them is the assignment. */
  lemma FullPrefix(r: Assignment, vars: seq<int>)
    requires r.Keys == Elems(vars)
    ensures Prefix(r, vars, |vars|) == r
  {
    assert vars[..|vars|] == vars;
    var p := Prefix(r, vars, |vars|);
    forall v | v in r
      ensures v in p && p[v] == r[v]
    {
      assert v in r.Keys;
    }
    assert forall v :: v in p ==> v in r.Keys;
  }

  /** The search starts from the empty assignment, the restriction of anything to no variables. */
  lemma EmptyBindsPrefix(vars: seq<int>)
    ensures BindsPrefix(vars, map[]) && forall s :: Prefix(s, vars, 0) == map[]
  {
    assert vars[..0] == [];
  }

  /** An assignment BacktrackingCSP returns is accepted. */
  lemma SolveSound(vars: seq<int>, dom: DomainMap, cs: seq<Constraint>)
    requires Distinct(vars)
    requires Solve(vars, dom, cs).Ok? && Solve(vars, dom, cs).value.Some?
    ensures Accepted(vars, dom, cs, Solve(vars, dom, cs).value.value)
  {
    var idx := IndexFor(cs, vars);
    EmptyBindsPrefix(vars);
    FirstSolutionSound(vars, dom, idx, map[]);
    PassesAccepted(vars, dom, cs, FirstSolution(vars, dom, idx, map[]).value);
  }

  /**
   * Whenever some assignment is accepted, BacktrackingCSP reports no error and
   * returns an assignment.
   */
  lemma SolveComplete(vars: seq<int>, dom: DomainMap, cs: seq<Constraint>, s: Assignment)
    requires Distinct(vars) && Accepted(vars, dom, cs, s)
    ensures Solve(vars, dom, cs).Ok? && Solve(vars, dom, cs).value.Some?
  {
    AcceptedDomains(vars, dom, cs, s);
    var idx := IndexFor(cs, vars);
    EmptyBindsPrefix(vars);
    AcceptedPasses(vars, dom, cs, s);
    FirstSolutionComplete(vars, dom, idx, map[], s);
  }

  /** An accepted assignment leaves no domain missing or empty. */
  lemma AcceptedDomains(vars: seq<int>, dom: DomainMap, cs: seq<Constraint>, s: Assignment)
    requires Accepted(vars, dom, cs, s)
    ensures FirstMissing(vars, dom).None?
  {
    assert forall i :: 0 <= i < |vars| ==> s[vars[i]] in DomainOf(dom, vars[i]);
  }

  /**
   * BacktrackingCSP fails exactly when some declared variable has a missing or
   * empty domain, and it names the first such variable.
   */
  lemma SolveErrors(vars: seq<int>, dom: DomainMap, cs: seq<Constraint>)
    requires Distinct(vars)
    ensures Solve(vars, dom, cs).Err? <==> exists i :: 0 <= i < |vars| && Unusable(dom, vars[i])
    ensures Solve(vars, dom, cs).Err? ==>
              exists i :: 0 <= i < |vars| && vars[i] == Solve(vars, dom, cs).error.variable && Unusable(dom, vars[i])
                          && forall j :: 0 <= j < i ==> !Unusable(dom, vars[j])
  {
  }

  /** With no declared variables the empty assignment is returned. */
  lemma ZeroVariables(dom: DomainMap, cs: seq<Constraint>)
    ensures Solve([], dom, cs) == Ok(Some(map[]))
  {
  }

  /**
   * A constraint that declares none of the declared variables is never
   * checked: adding it changes nothing, whatever its test.
   */
  lemma SolveIgnoresUndeclaring(vars: seq<int>, dom: DomainMap, cs: seq<Constraint>, c: Constraint)
    requires Distinct(vars)
    requires forall x :: x in c.vars ==> x !in vars
    ensures Solve(vars, dom, cs + [c]) == Solve(vars, dom, cs)
  {
    var idx1, idx2 := IndexFor(cs + [c], vars), IndexFor(cs, vars);
    forall v | v in vars
      ensures Lookup(idx1, v) == Lookup(idx2, v)
    {
      IndexForLookup(cs + [c], vars, v);
      IndexForLookup(cs, vars, v);
      assert (cs + [c])[..|cs|] == cs;
      assert multiset(c.vars)[v] == 0;
    }
    SearchReadsDeclared(vars, dom, idx1, idx2, map[]);
  }

  // ---------------------------------------------------------------------------
  // From the engine's checks to every constraint
  // ---------------------------------------------------------------------------

  /** `r1` and `r2` bind the same variables of `xs`, to the same values. */
  predicate Agree(r1: Assignment, r2: Assignment, xs: seq<int>)
  {
    forall x :: x in xs ==> (x in r1 <==> x in r2) && (x in r1 ==> r1[x] == r2[x])
  }

  /** `p` keeps some of the bindings of `r` and adds none. */
  predicate SubMap(p: Assignment, r: Assignment)
  {
    forall x :: x in p ==> x in r && p[x] == r[x]
  }

  /** The constraint's test reads only the bindings of the variables it declares. */
  ghost predicate Local(c: Constraint)
  {
    forall r1, r2 :: Agree(r1, r2, c.vars) ==> (c.sat(r1) <==> c.sat(r2))
  }

  /** The constraint accepts every part of an assignment it accepts. */
  ghost predicate Tolerant(c: Constraint)
  {
    forall p, r :: SubMap(p, r) && c.sat(r) ==> c.sat(p)
  }

  /** The position of the last of the first `n` variables that lies in `xs`, or -1. */
  function LastIndexIn(vars: seq<int>, xs: seq<int>, n: nat): (r: int)
    requires n <= |vars|
    ensures -1 <= r < n && (r >= 0 ==> vars[r] in xs)
    ensures forall k :: r < k < n ==> vars[k] !in xs
  {
    if n == 0 then -1
    else if vars[n - 1] in xs then n - 1
    else LastIndexIn(vars, xs, n - 1)
  }

  /**
   * An accepted assignment satisfies every constraint that reads only its own
   * variables and declares at least one variable, all of them in the list:
   * that constraint was checked when the last of its variables was bound, and
   * by then all of them were.
   */
  lemma GlobalSound(vars: seq<int>, dom: DomainMap, cs: seq<Constraint>, r: Assignment, i: nat)
    requires Accepted(vars, dom, cs, r)
    requires i < |cs| && cs[i].vars != [] && Elems(cs[i].vars) <= Elems(vars) && Local(cs[i])
    ensures cs[i].sat(r)
  {
    var xs := cs[i].vars;
    assert xs[0] in Elems(vars);
    var j0 :| 0 <= j0 < |vars| && vars[j0] == xs[0];
    var j := LastIndexIn(vars, xs, |vars|);
    assert j0 <= j;
    var p := Prefix(r, vars, j + 1);
    AcceptedAt(vars, dom, cs, r, j, i);
    forall x | x in xs
      ensures x in p && p[x] == r[x]
    {
      assert x in Elems(vars);
      var k :| 0 <= k < |vars| && vars[k] == x;
      assert k <= j;
      assert vars[..j + 1][k] == x;
      assert x in r.Keys;
    }
    assert Agree(p, r, xs);
  }

  /** The assignment the engine returns satisfies every such constraint. */
  lemma SolveSatisfiesAll(vars: seq<int>, dom: DomainMap, cs: seq<Constraint>, i: nat)
    requires Distinct(vars) && Solve(vars, dom, cs).Ok? && Solve(vars, dom, cs).value.Some?
    requires i < |cs| && cs[i].vars != [] && Elems(cs[i].vars) <= Elems(vars) && Local(cs[i])
    ensures cs[i].sat(Solve(vars, dom, cs).value.value)
  {
    SolveSound(vars, dom, cs);
    GlobalSound(vars, dom, cs, Solve(vars, dom, cs).value.value, i);
  }

  /**
   * An assignment of every listed variable to a value of its domain that every
   * constraint accepts is accepted, when each constraint also accepts the parts
   * of what it accepts.
   */
  lemma GlobalAccepted(vars: seq<int>, dom: DomainMap, cs: seq<Constraint>, s: Assignment)
    requires s.Keys == Elems(vars)
    requires forall j :: 0 <= j < |vars| ==> s[vars[j]] in DomainOf(dom, vars[j])
    requires forall i :: 0 <= i < |cs| ==> cs[i].sat(s) && Tolerant(cs[i])
    ensures Accepted(vars, dom, cs, s)
  {
    forall j, i | 0 <= j < |vars| && 0 <= i < |cs| && vars[j] in cs[i].vars
      ensures cs[i].sat(Prefix(s, vars, j + 1))
    {
      TolerantPrefix(cs[i], s, vars, j + 1);
    }
  }

  /** For such an assignment the engine finds a solution. */
  lemma GlobalComplete(vars: seq<int>, dom: DomainMap, cs: seq<Constraint>, s: Assignment)
    requires Distinct(vars) && s.Keys == Elems(vars)
    requires forall j :: 0 <= j < |vars| ==> s[vars[j]] in DomainOf(dom, vars[j])
    requires forall i :: 0 <= i < |cs| ==> cs[i].sat(s) && Tolerant(cs[i])
    ensures Solve(vars, dom, cs).Ok? && Solve(vars, dom, cs).value.Some?
  {
    GlobalAccepted(vars, dom, cs, s);
    SolveComplete(vars, dom, cs, s);
  }

  /** A tolerant constraint that accepts `s` accepts each of its restrictions to a prefix. */
  lemma TolerantPrefix(c: Constraint, s: Assignment, vars: seq<int>, k: nat)
    requires Tolerant(c) && c.sat(s) && k <= |vars|
    ensures c.sat(Prefix(s, vars, k))
  {
    assert SubMap(Prefix(s, vars, k), s);
  }
}
