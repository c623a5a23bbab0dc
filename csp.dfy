/**
 * The backtracking constraint-satisfaction engine of csp.go: construction of
 * the per-variable constraint index with domain validation (BacktrackingCSP)
 * and the recursive depth-first search (search).
 *
 * Every loop of the source is a method proved against a function; the search
 * is specified by FirstSolution, and the lemmas at the end of the module state
 * what that function promises: the solution it returns binds every declared
 * variable to a value of its domain and passed every check the engine makes
 * (soundness), and it returns one whenever such an assignment exists
 * (completeness).
 */
module Csp {

  /** `Assignment`: a (partial) map from variables to values. */
  type Assignment = map<int, int>

  /** `DomainMap`: the candidate values of each variable, in the order they are tried. */
  type DomainMap = map<int, seq<int>>

  /**
   * A client constraint: `vars` is what its `Variables()` returns, `sat` is its
   * `Satisfied` test.
   */
  datatype Constraint = Constraint(vars: seq<int>, sat: Assignment -> bool)

  /** `ConstraintsMap`: the constraints indexed under each variable. */
  type ConstraintIndex = map<int, seq<Constraint>>

  datatype Option<T> = None | Some(value: T)

  /** The one error the engine reports: a declared variable with no usable domain. */
  datatype Error = MissingDomain(variable: int)

  datatype Result<T> = Ok(value: T) | Err(error: Error)

  function Elems(s: seq<int>): set<int>
  {
    set x | x in s
  }

  /** No variable is declared twice. */
  predicate Distinct(s: seq<int>)
  {
    s == [] || (s[|s| - 1] !in s[..|s| - 1] && Distinct(s[..|s| - 1]))
  }

  /** In a list without repetitions no element occurs before its own position. */
  lemma {:induction false} DistinctAt(s: seq<int>, k: nat)
    requires Distinct(s) && k < |s|
    ensures s[k] !in s[..k]
  {
    if k < |s| - 1 {
      DistinctAt(s[..|s| - 1], k);
      assert s[..|s| - 1][..k] == s[..k];
    }
  }

  /** Reading `domain[v]` in Go: a missing key reads as the empty (nil) slice. */
  function DomainOf(dom: DomainMap, v: int): seq<int>
  {
    if v in dom then dom[v] else []
  }

  /** Reading `constrains[v]` in Go: a missing key reads as the empty (nil) slice. */
  function Lookup(idx: ConstraintIndex, v: int): seq<Constraint>
  {
    if v in idx then idx[v] else []
  }

  /** The validation test: the domain entry of `v` is missing or empty. */
  predicate Unusable(dom: DomainMap, v: int)
  {
    v !in dom || |dom[v]| == 0
  }

  /** Every constraint of `cs` accepts `a`. */
  predicate AllSatisfied(cs: seq<Constraint>, a: Assignment)
  {
    forall i :: 0 <= i < |cs| ==> cs[i].sat(a)
  }

  // ---------------------------------------------------------------------------
  // Construction: the constraint index and domain validation
  // ---------------------------------------------------------------------------

  /** `n` copies of `c`. */
  function Copies(c: Constraint, n: nat): (r: seq<Constraint>)
    ensures |r| == n
  {
    if n == 0 then [] else Copies(c, n - 1) + [c]
  }

  /**
   * The entry of `v` once the index loop has processed `cs`: every constraint in
   * order, once for each occurrence of `v` among its declared variables.
   */
  function Indexed(cs: seq<Constraint>, v: int): seq<Constraint>
  {
    if cs == [] then []
    else Indexed(cs[..|cs| - 1], v) + Copies(cs[|cs| - 1], multiset(cs[|cs| - 1].vars)[v])
  }

  /** The variables some constraint of `cs` declares: the keys the index loop creates. */
  function Declared(cs: seq<Constraint>): set<int>
  {
    if cs == [] then {} else Declared(cs[..|cs| - 1]) + Elems(cs[|cs| - 1].vars)
  }

  /** The index after construction: one entry per declared or constrained variable. */
  function IndexFor(cs: seq<Constraint>, vars: seq<int>): ConstraintIndex
  {
    map v | v in Declared(cs) + Elems(vars) :: Indexed(cs, v)
  }

  /** Regrouping a concatenation; the index proofs use it as a calculation step. */
  lemma ConcatAssoc<T>(a: seq<T>, b: seq<T>, c: seq<T>)
    ensures (a + b) + c == a + (b + c)
  {
  }

  lemma TakeSnoc(s: seq<int>, j: nat)
    requires j < |s|
    ensures multiset(s[..j + 1]) == multiset(s[..j]) + multiset{s[j]}
    ensures Elems(s[..j + 1]) == Elems(s[..j]) + {s[j]}
  {
    assert s[..j + 1] == s[..j] + [s[j]];
  }

  lemma IndexedSnoc(cs: seq<Constraint>, i: nat, v: int)
    requires i < |cs|
    ensures Indexed(cs[..i + 1], v) == Indexed(cs[..i], v) + Copies(cs[i], multiset(cs[i].vars)[v])
    ensures Declared(cs[..i + 1]) == Declared(cs[..i]) + Elems(cs[i].vars)
  {
    assert cs[..i + 1][..i] == cs[..i];
  }

  /** One step of the inner loop: `c` is appended to the entry of `vs[j]`. */
  lemma {:induction false} AppendStep(base: ConstraintIndex, before: ConstraintIndex, c: Constraint, vs: seq<int>, j: nat)
    requires j < |vs|
    requires forall w :: Lookup(before, w) == Lookup(base, w) + Copies(c, multiset(vs[..j])[w])
    ensures forall w :: Lookup(before[vs[j] := Lookup(before, vs[j]) + [c]], w)
                        == Lookup(base, w) + Copies(c, multiset(vs[..j + 1])[w])
    ensures before.Keys == base.Keys + Elems(vs[..j]) ==>
              before[vs[j] := Lookup(before, vs[j]) + [c]].Keys == base.Keys + Elems(vs[..j + 1])
  {
    AppendEntries(base, before, c, vs, j);
    TakeSnoc(vs, j);
  }

  lemma {:induction false} AppendEntries(base: ConstraintIndex, before: ConstraintIndex, c: Constraint, vs: seq<int>, j: nat)
    requires j < |vs|
    requires forall w :: Lookup(before, w) == Lookup(base, w) + Copies(c, multiset(vs[..j])[w])
    ensures forall w :: Lookup(before[vs[j] := Lookup(before, vs[j]) + [c]], w)
                        == Lookup(base, w) + Copies(c, multiset(vs[..j + 1])[w])
  {
    var after := before[vs[j] := Lookup(before, vs[j]) + [c]];
    TakeSnoc(vs, j);
    forall w
      ensures Lookup(after, w) == Lookup(base, w) + Copies(c, multiset(vs[..j + 1])[w])
    {
      var n := multiset(vs[..j])[w];
      if w == vs[j] {
        assert multiset(vs[..j + 1])[w] == n + 1;
        calc {
          Lookup(after, w);
          Lookup(before, w) + [c];
          (Lookup(base, w) + Copies(c, n)) + [c];
          { ConcatAssoc(Lookup(base, w), Copies(c, n), [c]); }
          Lookup(base, w) + (Copies(c, n) + [c]);
          Lookup(base, w) + Copies(c, n + 1);
        }
      } else {
        assert multiset(vs[..j + 1])[w] == n;
        assert Lookup(after, w) == Lookup(before, w);
      }
    }
  }

  /** The inner loop: appends `c` to the entry of each variable it declares. */
  method Register(idx: ConstraintIndex, c: Constraint) returns (idx': ConstraintIndex)
    ensures idx'.Keys == idx.Keys + Elems(c.vars)
    ensures forall v :: Lookup(idx', v) == Lookup(idx, v) + Copies(c, multiset(c.vars)[v])
  {
    idx' := idx;
    for j := 0 to |c.vars|
      invariant idx'.Keys == idx.Keys + Elems(c.vars[..j])
      invariant forall v :: Lookup(idx', v) == Lookup(idx, v) + Copies(c, multiset(c.vars[..j])[v])
    {
      var v := c.vars[j];
      AppendStep(idx, idx', c, c.vars, j);
      idx' := idx'[v := Lookup(idx', v) + [c]];
    }
    assert c.vars[..|c.vars|] == c.vars;
  }

  /** The loop that inverts each constraint's variable list into the index. */
  method BuildIndex(cs: seq<Constraint>) returns (idx: ConstraintIndex)
    ensures idx.Keys == Declared(cs)
    ensures forall v :: Lookup(idx, v) == Indexed(cs, v)
  {
    idx := map[];
    for i := 0 to |cs|
      invariant idx.Keys == Declared(cs[..i])
      invariant forall v :: Lookup(idx, v) == Indexed(cs[..i], v)
    {
      idx := Register(idx, cs[i]);
      forall w
        ensures Lookup(idx, w) == Indexed(cs[..i + 1], w)
      {
        IndexedSnoc(cs, i, w);
      }
      IndexedSnoc(cs, i, 0);
    }
    assert cs[..|cs|] == cs;
  }

  /** The first declared variable, in declared order, whose domain is unusable. */
  function FirstMissing(vars: seq<int>, dom: DomainMap): (r: Option<int>)
    ensures r.None? <==> forall i :: 0 <= i < |vars| ==> !Unusable(dom, vars[i])
    ensures r.Some? ==> exists i :: 0 <= i < |vars| && vars[i] == r.value && Unusable(dom, vars[i])
                                    && forall j :: 0 <= j < i ==> !Unusable(dom, vars[j])
  {
    if vars == [] then None
    else if Unusable(dom, vars[0]) then Some(vars[0])
    else
      var r := FirstMissing(vars[1..], dom);
      assert forall i :: 1 <= i < |vars| ==> vars[i] == vars[1..][i - 1];
      r
  }

  /**
   * What BacktrackingCSP computes: the configuration error for the first
   * variable with an unusable domain, otherwise the first solution of the search
   * started from the empty assignment.
   */
  function Solve(vars: seq<int>, dom: DomainMap, cs: seq<Constraint>): Result<Option<Assignment>>
    requires Distinct(vars)
  {
    match FirstMissing(vars, dom)
    case Some(v) => Err(MissingDomain(v))
    case None => Ok(FirstSolution(vars, dom, IndexFor(cs, vars), map[]))
  }

  /** The validation loop stops at the first unusable variable, which FirstMissing names. */
  lemma FirstMissingAt(vars: seq<int>, dom: DomainMap, i: nat)
    requires i < |vars| && Unusable(dom, vars[i])
    requires forall j :: 0 <= j < i ==> !Unusable(dom, vars[j])
    ensures FirstMissing(vars, dom) == Some(vars[i])
  {
  }

  /**
   * The validation loop: stops at the first variable whose domain is missing
   * or empty and otherwise gives every declared variable an index entry,
   * empty when no constraint declares it.
   */
  method Validate(vars: seq<int>, dom: DomainMap, idx: ConstraintIndex) returns (missing: Option<int>, idx': ConstraintIndex)
    ensures missing == FirstMissing(vars, dom)
    ensures missing.None? ==> idx'.Keys == idx.Keys + Elems(vars)
    ensures forall v :: Lookup(idx', v) == Lookup(idx, v)
  {
    idx' := idx;
    for i := 0 to |vars|
      invariant forall j :: 0 <= j < i ==> !Unusable(dom, vars[j])
      invariant idx'.Keys == idx.Keys + Elems(vars[..i])
      invariant forall v :: Lookup(idx', v) == Lookup(idx, v)
    {
      var v := vars[i];
      if v !in dom || |dom[v]| == 0 {
        FirstMissingAt(vars, dom, i);
        return Some(v), idx';
      }
      TakeSnoc(vars, i);
      if v !in idx' {
        idx' := idx'[v := []];
      }
    }
    assert vars[..|vars|] == vars;
    return None, idx';
  }

  /** Once every declared variable has an entry, the index is IndexFor(cs, vars). */
  lemma CompletedIndex(idx: ConstraintIndex, cs: seq<Constraint>, vars: seq<int>)
    requires idx.Keys == Declared(cs) + Elems(vars)
    requires forall v :: Lookup(idx, v) == Indexed(cs, v)
    ensures idx == IndexFor(cs, vars)
  {
    forall v | v in idx
      ensures idx[v] == IndexFor(cs, vars)[v]
    {
      assert idx[v] == Lookup(idx, v);
    }
  }

  /**
   * BacktrackingCSP: builds the index, rejects the first variable whose domain
   * is missing or empty (before any search), gives every declared variable an
   * index entry and runs the search from the empty assignment.
   */
  method BacktrackingCSP(vars: seq<int>, dom: DomainMap, cs: seq<Constraint>) returns (r: Result<Option<Assignment>>)
    requires Distinct(vars)
    ensures r == Solve(vars, dom, cs)
  {
    var idx := BuildIndex(cs);
    var missing;
    missing, idx := Validate(vars, dom, idx);
    if missing.Some? {
      return Err(MissingDomain(missing.value));
    }
    CompletedIndex(idx, cs, vars);
    var a := Search(vars, dom, idx, map[]);
    return Ok(a);
  }

  // ---------------------------------------------------------------------------
  // Search
  // ---------------------------------------------------------------------------

  /**
   * The variable the search extends: the first one in declared order that the
   * assignment does not bind, or Go's zero value 0 when there is none.
   */
  function PickVariable(vars: seq<int>, a: Assignment): int
  {
    if vars == [] then 0
    else if vars[0] !in a then vars[0]
    else PickVariable(vars[1..], a)
  }

  /** When some declared variable is unbound, PickVariable is the first of them. */
  lemma {:induction false} PickVariableFirstUnbound(vars: seq<int>, a: Assignment)
    requires exists i :: 0 <= i < |vars| && vars[i] !in a
    ensures exists k :: 0 <= k < |vars| && vars[k] == PickVariable(vars, a) && vars[k] !in a
                        && forall j :: 0 <= j < k ==> vars[j] in a
  {
    if vars[0] in a {
      var i :| 0 <= i < |vars| && vars[i] !in a;
      assert vars[1..][i - 1] !in a;
      PickVariableFirstUnbound(vars[1..], a);
      var k :| 0 <= k < |vars| - 1 && vars[1..][k] == PickVariable(vars[1..], a) && vars[1..][k] !in a
               && forall j :: 0 <= j < k ==> vars[1..][j] in a;
      assert forall j :: 1 <= j < k + 1 ==> vars[j] == vars[1..][j - 1];
    } else {
      assert vars[0] == PickVariable(vars, a);
    }
  }

  lemma {:induction false} DistinctElems(s: seq<int>)
    requires Distinct(s)
    ensures |Elems(s)| == |s|
  {
    if s != [] {
      var p := s[..|s| - 1];
      assert Elems(s) == Elems(p) + {s[|s| - 1]};
      assert s[|s| - 1] !in Elems(p);
      DistinctElems(p);
    }
  }

  /** An assignment over distinct declared variables that is not complete leaves one unbound. */
  lemma UnboundExists(vars: seq<int>, a: Assignment)
    requires Distinct(vars) && a.Keys <= Elems(vars) && |a| != |vars|
    ensures exists i :: 0 <= i < |vars| && vars[i] !in a
  {
    if forall i :: 0 <= i < |vars| ==> vars[i] in a {
      assert a.Keys == Elems(vars);
      DistinctElems(vars);
      assert false;
    }
  }

  /**
   * The first assignment the search returns from `a`: `a` itself once it binds
   * as many variables as are declared, otherwise the first success among the
   * values of the picked variable's domain.
   */
  function FirstSolution(vars: seq<int>, dom: DomainMap, idx: ConstraintIndex, a: Assignment): Option<Assignment>
    requires Distinct(vars) && a.Keys <= Elems(vars)
    decreases Elems(vars) - a.Keys, 1, 0
  {
    if |a| == |vars| then Some(a)
    else
      UnboundExists(vars, a);
      PickVariableFirstUnbound(vars, a);
      var v := PickVariable(vars, a);
      FirstSolutionFrom(vars, dom, idx, a, v, DomainOf(dom, v))
  }

  /**
   * Trying the values `ds` for the unbound variable `v` in order: the first
   * attempt that succeeds ends the loop.
   */
  function FirstSolutionFrom(vars: seq<int>, dom: DomainMap, idx: ConstraintIndex, a: Assignment, v: int, ds: seq<int>): Option<Assignment>
    requires Distinct(vars) && a.Keys <= Elems(vars) && v in Elems(vars) && v !in a
    decreases Elems(vars) - a.Keys, 0, |ds|
  {
    if ds == [] then None
    else
      var r := Attempt(vars, dom, idx, a, v, ds[0]);
      if r.Some? then r else FirstSolutionFrom(vars, dom, idx, a, v, ds[1..])
  }

  /**
   * One value `d` for `v`: the extended assignment is explored only when every
   * constraint indexed under `v` accepts it.
   */
  function Attempt(vars: seq<int>, dom: DomainMap, idx: ConstraintIndex, a: Assignment, v: int, d: int): Option<Assignment>
    requires Distinct(vars) && a.Keys <= Elems(vars) && v in Elems(vars) && v !in a
    decreases Elems(vars) - a.Keys, 0, 0
  {
    var ext := a[v := d];
    assert Elems(vars) - ext.Keys < Elems(vars) - a.Keys by {
      assert ext.Keys == a.Keys + {v};
    }
    if AllSatisfied(Lookup(idx, v), ext) then FirstSolution(vars, dom, idx, ext) else None
  }

  /** Trying the values from position `i` on: the value at `i` first, then the rest. */
  lemma FromStep(vars: seq<int>, dom: DomainMap, idx: ConstraintIndex, a: Assignment, v: int, ds: seq<int>, i: nat)
    requires Distinct(vars) && a.Keys <= Elems(vars) && v in Elems(vars) && v !in a && i < |ds|
    ensures var r := Attempt(vars, dom, idx, a, v, ds[i]);
            FirstSolutionFrom(vars, dom, idx, a, v, ds[i..])
            == if r.Some? then r else FirstSolutionFrom(vars, dom, idx, a, v, ds[i + 1..])
  {
    assert ds[i..][1..] == ds[i + 1..];
  }

  /** The loop that finds the first unassigned variable. */
  method FirstUnassigned(vars: seq<int>, a: Assignment) returns (v: int)
    ensures v == PickVariable(vars, a)
    ensures (forall i :: 0 <= i < |vars| ==> vars[i] in a) ==> v == 0
  {
    v := 0;
    var i := 0;
    while i < |vars|
      invariant 0 <= i <= |vars|
      invariant forall j :: 0 <= j < i ==> vars[j] in a
      invariant PickVariable(vars, a) == PickVariable(vars[i..], a)
    {
      assert vars[i..][1..] == vars[i + 1..];
      if vars[i] !in a {
        v := vars[i];
        break;
      }
      i := i + 1;
    }
  }

  lemma EmptyOrMember(s: set<int>)
    ensures s == {} || exists x :: x in s
  {
    if forall x :: x !in s {
      assert s == {};
    }
  }

  /** The entry-by-entry copy of the parent assignment plus one new binding. */
  method CopyExtend(a: Assignment, v: int, d: int) returns (m: Assignment)
    ensures m == a[v := d]
  {
    m := map[];
    var todo := a.Keys;
    while todo != {}
      invariant todo <= a.Keys
      invariant m.Keys == a.Keys - todo
      invariant forall k :: k in m ==> m[k] == a[k]
      decreases todo
    {
      EmptyOrMember(todo);
      var k :| k in todo;
      m := m[k := a[k]];
      todo := todo - {k};
    }
    assert forall k :: k in a ==> k in m.Keys && m[k] == a[k];
    assert m == a;
    m := m[v := d];
  }

  /** The `satified` loop: stops at the first constraint that rejects `a`. */
  method Consistent(cs: seq<Constraint>, a: Assignment) returns (ok: bool)
    ensures ok == AllSatisfied(cs, a)
  {
    ok := true;
    var i := 0;
    while i < |cs|
      invariant 0 <= i <= |cs|
      invariant forall j :: 0 <= j < i ==> cs[j].sat(a)
    {
      if !cs[i].sat(a) {
        ok := false;
        break;
      }
      i := i + 1;
    }
  }

  /** An incomplete assignment: the search continues with the picked variable's domain. */
  lemma Unfold(vars: seq<int>, dom: DomainMap, idx: ConstraintIndex, a: Assignment)
    requires Distinct(vars) && a.Keys <= Elems(vars) && |a| != |vars|
    ensures PickVariable(vars, a) in Elems(vars) && PickVariable(vars, a) !in a
    ensures var v := PickVariable(vars, a);
            FirstSolution(vars, dom, idx, a) == FirstSolutionFrom(vars, dom, idx, a, v, DomainOf(dom, v))
  {
    UnboundExists(vars, a);
    PickVariableFirstUnbound(vars, a);
  }

  /**
   * search: returns `a` once it is complete; otherwise tries each value of the
   * first unassigned variable in turn and returns the first success.
   */
  method Search(vars: seq<int>, dom: DomainMap, idx: ConstraintIndex, a: Assignment) returns (r: Option<Assignment>)
    requires Distinct(vars) && a.Keys <= Elems(vars)
    ensures r == FirstSolution(vars, dom, idx, a)
    decreases Elems(vars) - a.Keys, 1
  {
    if |a| == |vars| {
      return Some(a);
    }
    var v := FirstUnassigned(vars, a);
    Unfold(vars, dom, idx, a);
    var ds := if v in dom then dom[v] else [];
    var i := 0;
    while i < |ds|
      invariant 0 <= i <= |ds|
      invariant FirstSolution(vars, dom, idx, a) == FirstSolutionFrom(vars, dom, idx, a, v, ds[i..])
    {
      FromStep(vars, dom, idx, a, v, ds, i);
      var res := TryValue(vars, dom, idx, a, v, ds[i]);
      if res.Some? {
        return res;
      }
      i := i + 1;
    }
    return None;
  }

  /**
   * The body of the loop over the domain: copies the assignment with the new
   * binding, checks the constraints indexed under `v`, and recurses only when
   * every one of them accepts.
   */
  method TryValue(vars: seq<int>, dom: DomainMap, idx: ConstraintIndex, a: Assignment, v: int, d: int) returns (r: Option<Assignment>)
    requires Distinct(vars) && a.Keys <= Elems(vars) && v in Elems(vars) && v !in a
    ensures r == Attempt(vars, dom, idx, a, v, d)
    decreases Elems(vars) - a.Keys, 0
  {
    var ext := CopyExtend(a, v, d);
    var ok := Consistent(Lookup(idx, v), ext);
    assert ext.Keys == a.Keys + {v};
    if ok {
      r := Search(vars, dom, idx, ext);
    } else {
      r := None;
    }
  }
}
