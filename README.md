# A verified model of troydai/csp

This model covers `csp`, a small Go package that solves constraint-satisfaction
problems by backtracking, together with its two clients: the eight-queens test
and the employee-free-time test.

- **Engine (`csp.go`).** `BacktrackingCSP` takes three inputs:
  - a list of variables (integers);
  - a domain for each variable, giving its candidate values in the order they are tried;
  - a list of constraints. Each constraint names the variables it applies to
    (`Variables`) and tests an assignment (`Satisfied`).

  The engine works in four steps:
  1. It indexes every constraint under each variable the constraint declares.
  2. It rejects the problem if some variable has a missing or empty domain.
  3. It adds an empty index entry for every variable that no constraint declares.
  4. It runs `search`, a depth-first search:
     - take the first unbound variable in the declared order;
     - try its values in order;
     - extend a copy of the assignment;
     - keep the extension only if every constraint indexed under that variable accepts it;
     - return the first complete assignment found.
- **Eight queens (`eightqueens_test.go`).** One variable per column 1..8, each
  ranging over rows 1..8. A single constraint rejects two queens on the same row
  or diagonal.
- **Employee free time (`employee_freetime_test.go`).** Four helpers around the
  solver:
  - the constraint "every employee picks the same time unit";
  - a scan for the earliest start and the latest end of all busy intervals;
  - `revertSchedule`, which turns one employee's busy intervals into a list of free units;
  - a merge of sorted free units into half-open intervals.

The model has five modules:

- **`Csp` (csp.dfy)** models the engine imperatively.
  - Index construction, validation, the scan for the unbound variable, the
    assignment copy and the constraint check are loop methods.
  - `Search` is a recursive method over the value loop.
  - Every method is proved equal to a function: `IndexFor`, `FirstMissing`,
    `PickVariable`, `FirstSolution`, `Attempt` and `Solve`.
  - `BacktrackingCSP` returns exactly `Solve(vars, dom, cs)`.
- **`CspProperties` (csp_properties.dfy)** states what those functions
  guarantee:
  - soundness and completeness of the search, at every depth and for
    `BacktrackingCSP` as a whole;
  - the value order;
  - the error cases;
  - the fact that the search reads only the index entries of declared variables;
  - what the index holds.

  `Accepted` is the reference definition of a solution: every declared variable
  is bound to a value of its domain, and every constraint declaring `vars[j]`
  accepts the assignment of `vars[..j+1]`. `GlobalSound`, `GlobalAccepted` and
  `GlobalComplete` connect it to "every constraint accepts the whole
  assignment". This holds
  for constraints whose test reads only their own variables, and, for
  completeness, for constraints that also accept every part of an
  assignment they accept.
- **`CspFindings` (csp_findings.dfy)** models the search as written. It drops the
  model's precondition that the variable list has no repetitions, and it shows
  what goes wrong when a variable is listed twice (see Findings). It also holds
  the corrected engine, which drops repeated variables before the search.
- **`EightQueens` (eightqueens.dfy)** models the client and proves what the test
  asserts: the engine returns a board with eight queens, no error, and no two
  queens on the same row or diagonal.
- **`FreeTime` (freetime.dfy)** models the helpers of the free-time client, relates
  its constraint to the engine, and proves the two worked examples of the test.

## Model

| member | source | states |
|---|---|---|
| Csp.Register | csp.go:37-39 | Appending constraint `c` under each variable it declares adds `c` to that variable's list once per declaration. Every other list is unchanged. |
| Csp.BuildIndex | csp.go:35-40 | The index has an entry exactly for the variables some constraint declares. Each entry lists the declaring constraints in order, once per declaration. |
| Csp.FirstMissing | csp.go:42-45 | None iff every declared variable has a present, non-empty domain. Otherwise it names the first variable in declared order whose domain is missing or empty. |
| Csp.Validate | csp.go:42-49 | Reports the first variable whose domain is missing or empty. Otherwise it adds an entry for every declared variable, leaving every existing list unchanged. |
| Csp.CompletedIndex | csp.go:46-48 | After validation, the index equals `IndexFor`: constraint entries plus empty entries for the remaining declared variables. |
| Csp.BacktrackingCSP | csp.go:29-52 | Returns `MissingDomain(v)` for the first unusable variable `v`. Otherwise it returns the search result from the empty assignment (`Solve`). |
| Csp.FirstUnassigned | csp.go:65-72 | Returns the first variable in declared order that is absent from the assignment, and Go's zero value 0 when every listed variable is bound. |
| Csp.PickVariableFirstUnbound | csp.go:66-72 | The picked variable is unbound, and every variable listed before it is bound. |
| Csp.CopyExtend | csp.go:76-80 | The entry-by-entry copy equals the parent with exactly one binding added or replaced. The parent is a value and is left unchanged. |
| Csp.Consistent | csp.go:83-89 | True iff every constraint in the variable's index entry accepts the extended assignment. |
| Csp.TryValue | csp.go:76-101 | Recurses only when the checks pass. Otherwise the value fails (`Attempt`). |
| Csp.Search | csp.go:54-105 | The recursive search returns `FirstSolution` of its assignment. |
| CspProperties.PickOnPrefix | csp.go:66-72 | On the assignments the search builds, which bind `vars[..k]`, the variable picked is `vars[k]`. |
| CspProperties.FirstSolutionSound | csp.go:61-101 | A solution found from assignment `a` extends `a` and binds every declared variable. Every later variable's value comes from its domain and passed that variable's indexed checks at the step it was bound. |
| CspProperties.FromSound | csp.go:75-101 | A success of the value loop binds the variable to one of the values tried and passes all later steps. |
| CspProperties.FirstSolutionComplete | csp.go:54-105 | If some completion of `a` passes every step's domain and checks, the search from `a` returns a solution. |
| CspProperties.FromComplete | csp.go:75-101 | If the value a passing completion uses is among those tried, the value loop succeeds. |
| CspProperties.AllAttemptsFail | csp.go:75-104 | The value loop returns nil iff every attempt fails, so an exhausted subtree reports "no solution" rather than an error. |
| CspProperties.FirstSuccessWins | csp.go:98-100 | A success of the value loop is the attempt of some value `ds[i]`, and every earlier value failed. Values are tried in domain order, and the first non-nil result is returned. |
| CspProperties.SearchReadsDeclared | csp.go:84-89 | Two indexes that agree on the declared variables give the same search result. No other entry is consulted. |
| CspProperties.UndeclaredEmpty | csp.go:46-48 | A variable that no constraint declares gets an empty list. |
| CspProperties.IndexedContains | csp.go:35-40 | A constraint is in the entry of `v` iff it declares `v`. |
| CspProperties.IndexedSatisfied | csp.go:35-40 | The checks of `v`'s entry all pass iff every constraint declaring `v` accepts. |
| CspProperties.StepChecks | csp.go:83-89 | At step `j` the engine checks exactly the constraints that declare `vars[j]`. |
| CspProperties.PassesAccepted | csp.go:83-94 | An assignment passing every step of the search is `Accepted`. |
| CspProperties.AcceptedPasses | csp.go:83-94 | An `Accepted` assignment passes every step of the search. |
| CspProperties.SolveSound | csp.go:29-52 | A solution that `BacktrackingCSP` returns is `Accepted`. |
| CspProperties.SolveComplete | csp.go:29-52 | If an `Accepted` assignment exists, `BacktrackingCSP` returns a solution and no error. |
| CspProperties.AcceptedDomains | csp.go:42-45 | If an `Accepted` assignment exists, validation passes. |
| CspProperties.SolveErrors | csp.go:42-45 | `BacktrackingCSP` reports an error iff some declared variable has a missing or empty domain. The error names the first such variable. |
| CspProperties.ZeroVariables | csp.go:61-63 | With no variables, the empty assignment is returned. |
| CspProperties.SolveIgnoresUndeclaring | csp.go:35-40 | Adding a constraint that declares none of the variables does not change the result. |
| CspProperties.GlobalSound | csp.go:83-101 | An `Accepted` assignment satisfies every constraint whose test reads only its own declared variables, provided it declares at least one variable and all of them are listed. Such a constraint was checked when the last of its variables was bound. |
| CspProperties.SolveSatisfiesAll | csp.go:29-105 | The assignment `BacktrackingCSP` returns satisfies every such constraint. |
| CspProperties.GlobalAccepted | csp.go:83-101 | Take an assignment of every listed variable to a value of its domain that every constraint accepts. If each constraint also accepts every part of what it accepts, the assignment is `Accepted`. |
| CspProperties.GlobalComplete | csp.go:29-105 | For such an assignment, `BacktrackingCSP` reports no error and returns a solution. |
| CspFindings.RepeatedZeroNeverReturns | csp.go:61-72 | For the list `[0, 0]` with domain `{0: [5]}`, no amount of recursion depth lets the search as written return. |
| CspFindings.RepeatedVariableMissesSolution | csp.go:61-72 | For the list `[1, 1]` with domain `{1: [5]}`, the search as written reports no solution, although `{1: 5}` is `Accepted`. |
| CspFindings.RepeatedVariableBindsUndeclared | csp.go:61-80 | For the list `[1, 1]` with domain `{1: [5], 0: [7]}`, the search as written returns `{1: 5, 0: 7}`, which binds the undeclared variable 0. |
| CspFindings.TripleRepeatNeverReturns | csp.go:61-80 | For the list `[1, 1, 1]` with domain `{1: [5], 0: [7]}`, the search binds 1 and then 0. After that, no amount of recursion depth lets it return, because re-binding 0 leaves two bindings against three list entries. |
| CspFindings.AsWrittenAgrees | csp.go:54-105 | For distinct variables, the search as written returns what `FirstSolution` returns. |
| CspFindings.DedupDistinct | csp.go:29-33 | Dropping repetitions leaves a list without repetitions unchanged. |
| CspFindings.DropRepeats | csp.go:29-33 | The loop computes `Dedup`. `Dedup`'s contract states that the result has no repetitions and lists the same variables. That each variable stays at its first position follows from `Dedup`'s definition and is not in a contract. |
| CspFindings.BacktrackingCSPListed | csp.go:29-52 | The corrected engine runs `BacktrackingCSP` on the list without repetitions. |
| CspFindings.SolveListedAgrees | csp.go:29-105 | The corrected engine equals `BacktrackingCSP` on lists without repetitions. |
| CspFindings.SolveListedErrors | csp.go:42-45 | On any list, the corrected engine fails exactly when a listed domain is missing or empty. |
| CspFindings.SolveListedBinds | csp.go:61-63 | On any list, a solution of the corrected engine binds exactly the listed variables. |
| CspFindings.RepeatedVariableSolved | csp.go:61-72 | For the list `[1, 1]` with domain `{1: [5]}`, the corrected engine returns `{1: 5}`. |
| EightQueens.Abs | eightqueens_test.go:25-30 | Non-negative. Equal to `n` for `n >= 0` and to `-n` for `n < 0`. |
| EightQueens.Columns | eightqueens_test.go:13-15 | Eight columns; the i-th is `i + 1`. |
| EightQueens.BuildDomains | eightqueens_test.go:17-23 | Exactly the columns are keys, and each is mapped to the rows 1..8. |
| EightQueens.QueensConstraint | eightqueens_test.go:32-34 | The constraint declares the columns 1..8. |
| EightQueens.LaterColumnsClear | eightqueens_test.go:40-51 | True iff the queen of `c1` shares neither a row nor a diagonal with the row read for any column from `c1 + 1` up to the number of queens placed. |
| EightQueens.Satisfied | eightqueens_test.go:36-56 | True iff no queen attacks the row read for a later column up to the number of queens placed, whatever the order in which queens are visited. |
| EightQueens.NoAttackOnPrefix | eightqueens_test.go:36-56 | For a board with queens in exactly columns 1..k, `Satisfied` accepts iff no two queens share a row or diagonal. |
| EightQueens.FewQueensAccepted | eightqueens_test.go:36-56 | The empty board and a one-queen board (column >= 1) are accepted. |
| EightQueens.PeacefulAccepted | eightqueens_test.go:36-56 | A peaceful board of columns 1..n with rows in the domains passes the check at every step of the search. |
| EightQueens.QueensSolution | eightqueens_test.go:62-69 | An accepted assignment of the puzzle is a peaceful board with eight queens, one per column 1..8, on rows 1..8. |
| EightQueens.QueensSolved | eightqueens_test.go:62-69 | Solving columns 1..8 over rows 1..8 gives no error and a peaceful eight-queen board. |
| EightQueens.SolveEightQueens | eightqueens_test.go:62-69 | The test's call returns no error and a non-nil result of size 8, a board with no two queens sharing a row or diagonal. |
| FreeTime.FreeTimeConstraint | employee_freetime_test.go:29-31 | `Variables()` returns exactly the user ids. |
| FreeTime.Satisfied | employee_freetime_test.go:33-51 | Accepts at most one binding, and any assignment of equal values. An accepted assignment has no two different values other than -1. With no -1 value, it accepts iff all values are equal. |
| FreeTime.ScanRange | employee_freetime_test.go:55-71 | `low` and `high` are the results of the two sentinel scans over all intervals of all employees in order. |
| FreeTime.FlattenMembers | employee_freetime_test.go:57-58 | The intervals scanned are exactly those of every employee. |
| FreeTime.LowIsMin | employee_freetime_test.go:59-63 | With no negative start, `low` is -1 iff there are no intervals. Otherwise it is the start of some interval and no later than any start. |
| FreeTime.HighIsMax | employee_freetime_test.go:65-69 | With no negative end, `high` is -1 iff there are no intervals. Otherwise it is the end of some interval and no earlier than any end. |
| FreeTime.RevertSchedule | employee_freetime_test.go:110-125 | Returns `FreeUnits(low, high, intervals)`. |
| FreeTime.FreeUnitsSpec | employee_freetime_test.go:110-124 | The free units are strictly ascending. A unit is listed iff it lies in `[low, high)` and in no `[Start, End)`. |
| FreeTime.MergeSlots | employee_freetime_test.go:96-105 | Returns `Runs(slots)`. |
| FreeTime.RunsExpand | employee_freetime_test.go:96-105 | Expanding the merged intervals gives back the slots in order, so their union is the slot set. Every interval is non-empty. |
| FreeTime.RunsSeparated | employee_freetime_test.go:96-105 | For strictly ascending slots the intervals ascend and are separated by at least one unit, and the last ends one past the last slot. |
| FreeTime.FreeTimeSolutionSound | employee_freetime_test.go:33-51 | Under the free-time constraint, a solution the engine returns binds every employee to one common unit, which is in each employee's domain. |
| FreeTime.FreeTimeSolutionComplete | employee_freetime_test.go:33-51 | Whenever a unit is in every employee's domain, the engine finds a solution. |
| FreeTime.CommonUnitsSpec | employee_freetime_test.go:90-94 | The units to merge are ascending. They are exactly the units of `[low, high)` in the free list of every employee. |
| FreeTime.FirstExample | employee_freetime_test.go:129-138 | The first schedule spans `[1, 10)`, its only common free unit is 3, and the merged free time is `[3, 4)`. |
| FreeTime.SecondExample | employee_freetime_test.go:139-149 | The second schedule spans `[1, 12)`, its common free units are 5, 7 and 8, and the merged free time is `[5, 6)`, `[7, 9)`. |

## Left out

- Constraints are dispatched through a Go interface. Here a constraint is a value that holds its declared variables and its test as a function. The state a client keeps is not modelled.
- The error text built by `fmt.Errorf` (csp.go:44) is not modelled. The error carries the offending variable.
- Go's map iteration order is not modelled. The two `Satisfied` methods visit keys in an arbitrary order (a nondeterministic choice). Copying the assignment (csp.go:77-79) does not depend on order.
- The error-forwarding branch at csp.go:95-97 has no counterpart, because `search` never creates an error. `Search` therefore returns only an optional assignment.
- `employeeFreeTime` calls `BacktrackingCSP` with four arguments and reads a list of solutions (employee_freetime_test.go:80-93). That call does not match the three-argument engine in csp.go, so the model does not have it. `CommonUnits` specifies the ascending unit list that the merge receives. `FreeTimeSolutionSound` and `FreeTimeSolutionComplete` state what the engine shown does with the constraint.
- The `sort.Ints` call (employee_freetime_test.go:94) is library code. `RunsSeparated` assumes its result: a strictly ascending input.
- The `nil` return on an error (employee_freetime_test.go:86-88) is not modelled.
- The testing harness (`t.Run`, `assert.*`) is not modelled. The commented-out legacy API (eightqueens_test.go:60-61) is not modelled either.
- Go's `int` is 64 bits; the model uses unbounded integers. The only arithmetic is:
  - `+ 1` on time units;
  - the column increments `q1c + 1`, `q2c++` and `len(assignment)+1` (eightqueens_test.go:40);
  - subtraction of column and row numbers;
  - the negation `n * -1` in `abs` (eightqueens_test.go:27).
  All of these stay far from the bounds on the values the clients use. At the extremes of the 64-bit range, however, Go's column increment and negation wrap. See the `EightQueens.Abs` and `EightQueens.Satisfied` lines below.
- Csp.BacktrackingCSP: requires the variable list to have no repetitions. The Go code accepts any list. What it does with a repeated variable is modelled in `CspFindings`, together with the corrected engine `BacktrackingCSPListed`, which accepts any list.
- EightQueens.Satisfied: `ok == NoAttack(a)` holds over unbounded integers. In Go, `q1c + 1` (eightqueens_test.go:40) wraps at column 2^63 - 1. For the board `{2^63 - 1: 3}`, the scan then starts at -2^63, and a wrapped difference makes the diagonal test reject the board. The same applies to `EightQueens.LaterColumnsClear`, and to `EightQueens.FewQueensAccepted` for a queen at that column. The clients only use columns 1 to 8.
- EightQueens.LaterColumnsClear: the scan from `c1 + 1` is over unbounded integers. See the `EightQueens.Satisfied` line.
- EightQueens.FewQueensAccepted: a one-queen board is accepted over unbounded integers. In Go, a queen at column 2^63 - 1 is rejected after the wrap (see the `EightQueens.Satisfied` line).
- EightQueens.Abs: `r >= 0` is proved over unbounded integers. Go's `n * -1` (eightqueens_test.go:27) wraps at the minimum 64-bit value and returns that negative value. The clients only call it on differences of numbers from 1 to 8.
- FreeTime.Satisfied: when some picked time is -1, the Go result depends on map order. The contract states only the facts that hold in every order.
- FreeTime.FreeTimeConstraint: the test used in the engine is `SameTime` (all values equal). It agrees with `Satisfied` whenever no value is -1.
- FreeTime.LowIsMin: assumes no negative start. A start of -1 met after `low` is set resets `low` to "unset" in the Go scan.
- FreeTime.HighIsMax: assumes no negative end, for the same sentinel reason.
- FreeTime.MergeSlots: requires at least one slot. The Go code indexes `slots[0]` and panics on an empty list.
- FreeTime.MergeSlots: the Go code extends the last interval in place through `last`, an `*Interval` shared with the result slice. The model replaces the last element of the sequence, which has the same effect because nothing else refers to that interval.

## Findings

| source | as written | input that shows it | evidently intended | confidence | as-written member | corrected member |
|---|---|---|---|---|---|---|
| csp.go:61-72 | Completeness compares `len(assignment)` with `len(variables)`. When every listed variable is bound, the unassigned variable defaults to Go's zero value 0. Let the list have `n` entries and `m < n` distinct variables. Once the `m` are bound, the listed variables alone cannot fill the assignment, so the search picks 0, declared or not. If 0 has no domain, that branch yields no solution. If 0 is listed, or `n > m + 1`, re-binding 0 leaves the size unchanged and the search recurses forever, unless a constraint rejects the binding. Only when `n == m + 1` and 0 is not listed does it return an assignment that binds the undeclared 0. | Variables `[0, 0]`, domain `{0: [5]}`, no constraints: the search recurses forever. Variables `[1, 1]`, domain `{1: [5]}`: the result is "no solution", although `{1: 5}` binds every listed variable. Variables `[1, 1]`, domain `{1: [5], 0: [7]}`: the result is `{1: 5, 0: 7}`. Variables `[1, 1, 1]`, same domain: the search recurses forever. | A solution binds every listed variable. A repeated variable is ignored: the search runs on the list without repetitions. | not executed | CspFindings.SearchAsWritten, CspFindings.RepeatedZeroNeverReturns, CspFindings.RepeatedVariableMissesSolution, CspFindings.RepeatedVariableBindsUndeclared, CspFindings.TripleRepeatNeverReturns | CspFindings.BacktrackingCSPListed, CspFindings.SolveListedAgrees, CspFindings.SolveListedErrors, CspFindings.SolveListedBinds, CspFindings.RepeatedVariableSolved |
