/**
 * The eight-queens problem of eightqueens_test.go as a client of the engine:
 * one variable per column 1..8, each ranging over the rows 1..8, and a single
 * constraint over all columns that rejects two queens on a shared row or
 * diagonal.
 */
module EightQueens {
  import opened Csp
  import opened CspProperties

  /** `abs`. */
  function Abs(n: int): (r: int)
    ensures r >= 0
    ensures n >= 0 ==> r == n
    ensures n < 0 ==> r == -n
  {
    if n < 0 then n * -1 else n
  }

  /** `buildVariables`: the columns 1..8. */
  function Columns(): (r: seq<int>)
    ensures |r| == 8 && forall i :: 0 <= i < |r| ==> r[i] == i + 1
  {
    [1, 2, 3, 4, 5, 6, 7, 8]
  }

  /**
   * The row list every column ranges over: 1..8. It has the same values as
   * `Columns`, but the test writes it as a literal of its own inside
   * `buildDomains`, so it is kept separate here.
   */
  function Rows(): (r: seq<int>)
    ensures |r| == 8 && forall i :: 0 <= i < |r| ==> r[i] == i + 1
  {
    [1, 2, 3, 4, 5, 6, 7, 8]
  }

  /** The columns 1..k. */
  function Upto(k: int): set<int>
    decreases k
  {
    if k <= 0 then {} else Upto(k - 1) + {k}
  }

  lemma {:induction false} UptoMembers(k: int)
    ensures forall c :: c in Upto(k) <==> 1 <= c <= k
    decreases k
  {
    if k > 0 {
      UptoMembers(k - 1);
    }
  }

  lemma {:induction false} UptoSize(k: nat)
    ensures |Upto(k)| == k
  {
    if k > 0 {
      UptoSize(k - 1);
      UptoMembers(k - 1);
    }
  }

  /** `buildDomains`: every column is mapped to the row list 1..8. */
  method BuildDomains() returns (dom: DomainMap)
    ensures dom.Keys == Elems(Columns())
    ensures forall c :: c in dom ==> dom[c] == Rows()
  {
    dom := map[];
    var cols := Columns();
    for i := 0 to |cols|
      invariant dom.Keys == Elems(cols[..i])
      invariant forall c :: c in dom ==> dom[c] == Rows()
    {
      TakeSnoc(cols, i);
      dom := dom[cols[i] := Rows()];
    }
    assert cols[..|cols|] == cols;
  }

  /** `assignment[q2c]` in Go: a column without a queen reads as row 0. */
  function RowAt(a: Assignment, c: int): int
  {
    if c in a then a[c] else 0
  }

  /** The queen of column `c1` and the row read for column `c2` share a row or a diagonal. */
  predicate Attacks(a: Assignment, c1: int, c2: int)
    requires c1 in a
  {
    a[c1] == RowAt(a, c2) || Abs(c1 - c2) == Abs(a[c1] - RowAt(a, c2))
  }

  /**
   * What `Satisfied` accepts: no queen attacks the row read for any later column
   * up to the number of queens placed.
   */
  predicate NoAttack(a: Assignment)
  {
    forall c1, c2 {:trigger Attacks(a, c1, c2)} :: c1 in a && c1 < c2 <= |a| ==> !Attacks(a, c1, c2)
  }

  /** The inner loop of `Satisfied`: the columns after `c1`, up to |a|. */
  method LaterColumnsClear(a: Assignment, c1: int) returns (ok: bool)
    requires c1 in a
    ensures ok <==> forall c2 :: c1 < c2 <= |a| ==> !Attacks(a, c1, c2)
  {
    var c2 := c1 + 1;
    while c2 < |a| + 1
      invariant c1 < c2
      invariant forall c :: c1 < c < c2 && c <= |a| ==> !Attacks(a, c1, c)
      decreases |a| + 1 - c2
    {
      var r2 := RowAt(a, c2);
      if a[c1] == r2 {
        assert Attacks(a, c1, c2);
        return false;
      }
      if Abs(c1 - c2) == Abs(a[c1] - r2) {
        assert Attacks(a, c1, c2);
        return false;
      }
      c2 := c2 + 1;
    }
    return true;
  }

  /**
   * `Satisfied`: visits the placed queens in any order (Go's map order is
   * unspecified) and stops at the first attack.
   */
  method Satisfied(a: Assignment) returns (ok: bool)
    ensures ok == NoAttack(a)
  {
    var todo := a.Keys;
    while todo != {}
      invariant todo <= a.Keys
      invariant forall c1, c2 :: c1 in a && c1 !in todo && c1 < c2 <= |a| ==> !Attacks(a, c1, c2)
      decreases todo
    {
      EmptyOrMember(todo);
      var c1 :| c1 in todo;
      var clear := LaterColumnsClear(a, c1);
      if !clear {
        return false;
      }
      todo := todo - {c1};
    }
    return true;
  }

  /** The queens of columns `c1` and `c2` share a row or a diagonal. */
  predicate Clash(a: Assignment, c1: int, c2: int)
    requires c1 in a && c2 in a
  {
    a[c1] == a[c2] || Abs(c1 - c2) == Abs(a[c1] - a[c2])
  }

  /** The intended reading: no two queens share a row or a diagonal. */
  predicate Peaceful(a: Assignment)
  {
    forall c1, c2 {:trigger Clash(a, c1, c2)} :: c1 in a && c2 in a && c1 != c2 ==> !Clash(a, c1, c2)
  }

  /**
   * On the assignments the engine builds, which place queens in columns 1..k,
   * `Satisfied` accepts exactly the peaceful ones.
   */
  lemma NoAttackOnPrefix(a: Assignment, k: nat)
    requires a.Keys == Upto(k)
    ensures NoAttack(a) <==> Peaceful(a)
  {
    UptoSize(k);
    UptoMembers(k);
    if NoAttack(a) {
      NoAttackPeaceful(a);
    }
    if Peaceful(a) {
      forall c1, c2 | c1 in a && c1 < c2 <= |a|
        ensures !Attacks(a, c1, c2)
      {
        assert c2 in a;
        assert !Clash(a, c1, c2);
      }
    }
  }

  /** On columns from 1 to |a|, every pair of queens is checked in one of its two orders. */
  lemma NoAttackPeaceful(a: Assignment)
    requires forall c :: c in a <==> 1 <= c <= |a|
    requires NoAttack(a)
    ensures Peaceful(a)
  {
    forall c1, c2 | c1 in a && c2 in a && c1 != c2
      ensures !Clash(a, c1, c2)
    {
      if c1 < c2 {
        assert !Attacks(a, c1, c2);
      } else {
        assert !Attacks(a, c2, c1);
        assert Abs(c1 - c2) == Abs(c2 - c1) && Abs(a[c1] - a[c2]) == Abs(a[c2] - a[c1]);
      }
    }
  }

  /** The empty board and a board with one queen in a column from 1 on are accepted. */
  lemma FewQueensAccepted(a: Assignment)
    requires |a| <= 1 && forall c :: c in a ==> c >= 1
    ensures NoAttack(a)
  {
  }

  // ---------------------------------------------------------------------------
  // TestEightQueens: the engine solves the puzzle
  // ---------------------------------------------------------------------------

  /** The single constraint: declared over all columns, tested by `Satisfied`. */
  function QueensConstraint(): (c: Constraint)
    ensures c.vars == Columns()
  {
    Constraint(Columns(), NoAttack)
  }

  /** A list whose i-th element is i + 1 has no repetitions. */
  lemma {:induction false} CountingDistinct(s: seq<int>)
    requires forall i :: 0 <= i < |s| ==> s[i] == i + 1
    ensures Distinct(s)
  {
    if s != [] {
      var p := s[..|s| - 1];
      assert forall i :: 0 <= i < |p| ==> p[i] == s[i];
      CountingDistinct(p);
      assert forall x :: x in p ==> x < |s|;
    }
  }

  /** The first `j` columns of a board that fills columns 1..n are the queens of columns 1..j. */
  lemma CountingPrefix(vars: seq<int>, r: Assignment, j: nat)
    requires forall i :: 0 <= i < |vars| ==> vars[i] == i + 1
    requires Upto(|vars|) <= r.Keys && j <= |vars|
    ensures Prefix(r, vars, j).Keys == Upto(j)
    ensures forall c :: c in Prefix(r, vars, j) ==> Prefix(r, vars, j)[c] == r[c]
  {
    UptoMembers(|vars|);
    UptoMembers(j);
    forall c | c in Upto(j)
      ensures c in vars[..j]
    {
      assert vars[..j][c - 1] == c;
    }
    assert forall i :: 0 <= i < j ==> vars[..j][i] in Upto(j);
  }

  /** The board with the queen of column c on row `rows[c - 1]`. */
  function Board(rows: seq<int>): Assignment
  {
    if rows == [] then map[] else Board(rows[..|rows| - 1])[|rows| := rows[|rows| - 1]]
  }

  lemma {:induction false} BoardAt(rows: seq<int>)
    ensures Board(rows).Keys == Upto(|rows|)
    ensures forall c :: c in Board(rows) ==> 1 <= c <= |rows| && Board(rows)[c] == rows[c - 1]
  {
    if rows != [] {
      BoardAt(rows[..|rows| - 1]);
      UptoMembers(|rows| - 1);
    }
  }

  /** No queen after row index `i`, from index `j` on, shares a row or diagonal with it. */
  function ClearFrom(rows: seq<int>, i: nat, j: nat): bool
    requires i < |rows|
    decreases |rows| - j
  {
    j >= |rows| || (rows[i] != rows[j] && Abs(rows[i] - rows[j]) != Abs(j - i) && ClearFrom(rows, i, j + 1))
  }

  /** Every queen from index `i` on is clear of the later ones. */
  function AllClear(rows: seq<int>, i: nat): bool
    decreases |rows| - i
  {
    i >= |rows| || (ClearFrom(rows, i, i + 1) && AllClear(rows, i + 1))
  }

  lemma {:induction false} ClearFromPair(rows: seq<int>, i: nat, j: nat, k: nat)
    requires i < |rows| && ClearFrom(rows, i, j) && j <= k < |rows|
    ensures rows[i] != rows[k] && Abs(rows[i] - rows[k]) != Abs(k - i)
    decreases |rows| - j
  {
    if j < k {
      ClearFromPair(rows, i, j + 1, k);
    }
  }

  /** Two queens at indexes `k < l` passed the pairwise check. */
  lemma {:induction false} AllClearPair(rows: seq<int>, i: nat, k: nat, l: nat)
    requires AllClear(rows, i) && i <= k < l < |rows|
    ensures rows[k] != rows[l] && Abs(rows[k] - rows[l]) != Abs(l - k)
    decreases |rows| - i
  {
    if i < k {
      AllClearPair(rows, i + 1, k, l);
    } else {
      ClearFromPair(rows, k, k + 1, l);
    }
  }

  /** A board whose rows pass the pairwise check is peaceful. */
  lemma BoardPeaceful(rows: seq<int>)
    requires AllClear(rows, 0)
    ensures Peaceful(Board(rows))
  {
    BoardAt(rows);
    RowsPeaceful(rows, Board(rows));
  }

  lemma RowsPeaceful(rows: seq<int>, b: Assignment)
    requires AllClear(rows, 0)
    requires forall c :: c in b ==> 1 <= c <= |rows| && b[c] == rows[c - 1]
    ensures Peaceful(b)
  {
    forall c1, c2 | c1 in b && c2 in b && c1 != c2
      ensures !Clash(b, c1, c2)
    {
      if c1 < c2 {
        AllClearPair(rows, 0, c1 - 1, c2 - 1);
      } else {
        AllClearPair(rows, 0, c2 - 1, c1 - 1);
      }
    }
  }

  /** The rows of one solution, column by column. */
  function WitnessRows(): seq<int>
  {
    [1, 5, 8, 6, 3, 7, 2, 4]
  }

  /** The rows of the solution pass the pairwise check and lie in 1..8. */
  lemma WitnessClear()
    ensures AllClear(WitnessRows(), 0) && |WitnessRows()| == 8
    ensures forall i :: 0 <= i < |WitnessRows()| ==> 1 <= WitnessRows()[i] <= 8
  {
  }

  /** Eight rows in 1..8 that pass the pairwise check. */
  predicate GoodRows(rows: seq<int>)
  {
    AllClear(rows, 0) && |rows| == 8 && forall i :: 0 <= i < |rows| ==> 1 <= rows[i] <= 8
  }

  /** The puzzle has a solution. */
  lemma SolutionExists()
    ensures exists rows :: GoodRows(rows)
  {
    WitnessClear();
    assert GoodRows(WitnessRows());
  }

  /** The board of eight rows that pass the pairwise check. */
  lemma BoardFacts(rows: seq<int>)
    requires AllClear(rows, 0) && |rows| == 8 && forall i :: 0 <= i < |rows| ==> 1 <= rows[i] <= 8
    ensures Peaceful(Board(rows)) && Board(rows).Keys == Upto(8)
    ensures forall c :: c in Board(rows) ==> 1 <= Board(rows)[c] <= 8
  {
    BoardPeaceful(rows);
    BoardAt(rows);
  }

  /** A peaceful board stays peaceful when queens are removed. */
  lemma PeacefulRestrict(r: Assignment, p: Assignment)
    requires Peaceful(r)
    requires forall c :: c in p ==> c in r && p[c] == r[c]
    ensures Peaceful(p)
  {
    forall c1, c2 | c1 in p && c2 in p && c1 != c2
      ensures !Clash(p, c1, c2)
    {
      assert !Clash(r, c1, c2);
    }
  }

  /** A peaceful board on columns 1..n with rows in the domain passes every check the engine makes. */
  lemma PeacefulAccepted(vars: seq<int>, dom: DomainMap, w: Assignment)
    requires forall i :: 0 <= i < |vars| ==> vars[i] == i + 1
    requires forall c :: c in vars ==> c in dom && RowRange(dom[c])
    requires w.Keys == Upto(|vars|) && Peaceful(w) && forall c :: c in w ==> 1 <= w[c] <= 8
    ensures Accepted(vars, dom, [Constraint(vars, NoAttack)], w)
  {
    CountingElems(vars);
    DomainSteps(vars, dom, w);
    PeacefulSteps(vars, w);
  }

  lemma DomainSteps(vars: seq<int>, dom: DomainMap, w: Assignment)
    requires forall i :: 0 <= i < |vars| ==> vars[i] == i + 1
    requires forall c :: c in vars ==> c in dom && RowRange(dom[c])
    requires w.Keys == Upto(|vars|) && forall c :: c in w ==> 1 <= w[c] <= 8
    ensures forall j :: 0 <= j < |vars| ==> vars[j] in w && w[vars[j]] in DomainOf(dom, vars[j])
  {
    forall j | 0 <= j < |vars|
      ensures vars[j] in w && w[vars[j]] in DomainOf(dom, vars[j])
    {
      StepDomain(vars, dom, w, j);
    }
  }

  lemma PeacefulSteps(vars: seq<int>, w: Assignment)
    requires forall i :: 0 <= i < |vars| ==> vars[i] == i + 1
    requires w.Keys == Upto(|vars|) && Peaceful(w)
    ensures forall k :: 1 <= k <= |vars| ==> NoAttack(Prefix(w, vars, k))
  {
    forall k | 1 <= k <= |vars|
      ensures NoAttack(Prefix(w, vars, k))
    {
      PeacefulPrefix(vars, w, k);
    }
  }

  /** The columns 1..n, as a set. */
  lemma CountingElems(vars: seq<int>)
    requires forall i :: 0 <= i < |vars| ==> vars[i] == i + 1
    ensures Elems(vars) == Upto(|vars|)
  {
    UptoMembers(|vars|);
    forall c | c in Upto(|vars|)
      ensures c in vars
    {
      assert vars[c - 1] == c;
    }
  }

  /** A domain holding exactly the rows 1..8. */
  ghost predicate RowRange(ds: seq<int>)
  {
    forall x :: x in ds <==> 1 <= x <= 8
  }

  lemma RowsRange()
    ensures RowRange(Rows())
  {
    forall x | 1 <= x <= 8
      ensures x in Rows()
    {
      assert Rows()[x - 1] == x;
    }
  }

  /** Column `vars[j]` holds a queen on a row of its domain. */
  lemma StepDomain(vars: seq<int>, dom: DomainMap, w: Assignment, j: nat)
    requires forall i :: 0 <= i < |vars| ==> vars[i] == i + 1
    requires forall c :: c in vars ==> c in dom && RowRange(dom[c])
    requires w.Keys == Upto(|vars|) && forall c :: c in w ==> 1 <= w[c] <= 8
    requires j < |vars|
    ensures vars[j] in w && w[vars[j]] in DomainOf(dom, vars[j])
  {
    UptoMembers(|vars|);
    assert vars[j] in w;
  }

  /** The queens of the first `k` columns of a peaceful board of columns 1..n attack no later column. */
  lemma PeacefulPrefix(vars: seq<int>, w: Assignment, k: nat)
    requires forall i :: 0 <= i < |vars| ==> vars[i] == i + 1
    requires w.Keys == Upto(|vars|) && Peaceful(w) && k <= |vars|
    ensures NoAttack(Prefix(w, vars, k))
  {
    var p := Prefix(w, vars, k);
    CountingPrefix(vars, w, k);
    PeacefulRestrict(w, p);
    NoAttackOnPrefix(p, k);
  }

  /**
   * TestEightQueens: solving the eight columns with the eight rows under the
   * queens constraint reports no error and places eight queens, one per column
   * 1..8, on rows 1..8, no two sharing a row or a diagonal.
   */
  method SolveEightQueens() returns (r: Result<Option<Assignment>>)
    ensures r.Ok? && r.value.Some?
    ensures var b := r.value.value;
            |b| == 8 && b.Keys == Upto(8) && Peaceful(b) && forall c :: c in b ==> 1 <= b[c] <= 8
  {
    var dom := BuildDomains();
    var vars, cs := Columns(), [QueensConstraint()];
    CountingDistinct(vars);
    r := BacktrackingCSP(vars, dom, cs);
    QueensSolved(vars, dom);
  }

  /** Solving columns 1..8 over rows 1..8 finds a peaceful board. */
  lemma QueensSolved(vars: seq<int>, dom: DomainMap)
    requires |vars| == 8 && forall i :: 0 <= i < |vars| ==> vars[i] == i + 1
    requires dom.Keys == Elems(vars) && forall c :: c in dom ==> dom[c] == Rows()
    ensures Distinct(vars)
    ensures var r := Solve(vars, dom, [Constraint(vars, NoAttack)]);
            r.Ok? && r.value.Some? &&
            var b := r.value.value;
            |b| == 8 && b.Keys == Upto(8) && Peaceful(b) && forall c :: c in b ==> 1 <= b[c] <= 8
  {
    CountingDistinct(vars);
    SolutionExists();
    var rows :| GoodRows(rows);
    Solved(vars, dom, rows);
    RowsRange();
    QueensSolution(vars, dom, Solve(vars, dom, [Constraint(vars, NoAttack)]).value.value);
  }

  /** The engine solves the puzzle, given the rows of one solution. */
  lemma Solved(vars: seq<int>, dom: DomainMap, rows: seq<int>)
    requires |vars| == 8 && forall i :: 0 <= i < |vars| ==> vars[i] == i + 1
    requires dom.Keys == Elems(vars) && forall c :: c in dom ==> dom[c] == Rows()
    requires AllClear(rows, 0) && |rows| == 8 && forall i :: 0 <= i < |rows| ==> 1 <= rows[i] <= 8
    ensures Distinct(vars)
    ensures Solve(vars, dom, [Constraint(vars, NoAttack)]).Ok? && Solve(vars, dom, [Constraint(vars, NoAttack)]).value.Some?
    ensures Accepted(vars, dom, [Constraint(vars, NoAttack)], Solve(vars, dom, [Constraint(vars, NoAttack)]).value.value)
  {
    CountingDistinct(vars);
    RowsRange();
    BoardFacts(rows);
    PeacefulAccepted(vars, dom, Board(rows));
    SolveComplete(vars, dom, [Constraint(vars, NoAttack)], Board(rows));
    SolveSound(vars, dom, [Constraint(vars, NoAttack)]);
  }

  lemma SameMap(m1: Assignment, m2: Assignment)
    requires m1.Keys == m2.Keys && forall k :: k in m1 ==> m1[k] == m2[k]
    ensures m1 == m2
  {
    forall k | k in m1
      ensures k in m2 && m1[k] == m2[k]
    {
      assert k in m1.Keys;
    }
    assert forall k :: k in m2 ==> k in m1.Keys;
  }

  /** The check at the last column sees the whole board. */
  lemma AcceptedNoAttack(vars: seq<int>, dom: DomainMap, b: Assignment)
    requires |vars| == 8 && forall i :: 0 <= i < |vars| ==> vars[i] == i + 1
    requires b.Keys == Upto(8)
    requires Accepted(vars, dom, [Constraint(vars, NoAttack)], b)
    ensures NoAttack(b)
  {
    var c0 := Constraint(vars, NoAttack);
    assert vars[7] in c0.vars;
    AcceptedAt(vars, dom, [c0], b, 7, 0);
    CountingPrefix(vars, b, 8);
    SameMap(Prefix(b, vars, 8), b);
  }

  /** Every queen stands on a row of its domain. */
  lemma AcceptedRows(vars: seq<int>, dom: DomainMap, b: Assignment)
    requires |vars| == 8 && forall i :: 0 <= i < |vars| ==> vars[i] == i + 1
    requires b.Keys == Upto(8) && forall c :: c in dom ==> RowRange(dom[c])
    requires Accepted(vars, dom, [Constraint(vars, NoAttack)], b)
    ensures forall c :: c in b ==> 1 <= b[c] <= 8
  {
    UptoMembers(8);
    forall c | c in b
      ensures 1 <= b[c] <= 8
    {
      AcceptedRow(vars, dom, b, c - 1);
    }
  }

  lemma AcceptedRow(vars: seq<int>, dom: DomainMap, b: Assignment, j: nat)
    requires j < |vars| && forall c :: c in dom ==> RowRange(dom[c])
    requires Accepted(vars, dom, [Constraint(vars, NoAttack)], b)
    ensures 1 <= b[vars[j]] <= 8
  {
    assert b[vars[j]] in DomainOf(dom, vars[j]);
  }

  /** What an accepted assignment of the puzzle is. */
  lemma QueensSolution(vars: seq<int>, dom: DomainMap, b: Assignment)
    requires |vars| == 8 && forall i :: 0 <= i < |vars| ==> vars[i] == i + 1
    requires dom.Keys == Elems(vars) && forall c :: c in dom ==> RowRange(dom[c])
    requires Accepted(vars, dom, [Constraint(vars, NoAttack)], b)
    ensures |b| == 8 && b.Keys == Upto(8) && Peaceful(b) && forall c :: c in b ==> 1 <= b[c] <= 8
  {
    CountingElems(vars);
    UptoSize(8);
    AcceptedNoAttack(vars, dom, b);
    NoAttackOnPrefix(b, 8);
    AcceptedRows(vars, dom, b);
  }
}
