/**
 * The employee-free-time client of the engine (employee_freetime_test.go):
 * the constraint that every employee picks the same time unit, the scan for
 * the earliest start and the latest end of all busy intervals, the
 * complement of one employee's busy intervals as a list of free time units
 * (revertSchedule), and the merging of sorted free units into half-open
 * intervals.
 *
 * Time is counted in whole units; an interval covers the units
 * `start <= t < end`.
 */
module FreeTime {
  import opened Csp
  import opened CspProperties

  datatype Interval = Interval(start: int, end: int)

  /** Every bound employee picked the same time unit. */
  predicate SameTime(a: Assignment)
  {
    forall u1, u2 :: u1 in a && u2 in a ==> a[u1] == a[u2]
  }

  /**
   * employeeFreetimeConstraint over the employees `ids`: its `Variables()` are
   * exactly `ids`, its test is SameTime (what Satisfied computes whenever no
   * picked time is -1).
   */
  function FreeTimeConstraint(ids: seq<int>): (c: Constraint)
    ensures c.vars == ids
  {
    Constraint(ids, SameTime)
  }

  /**
   * employeeFreetimeConstraint.Satisfied: a single binding passes; otherwise the
   * first value met (in map order, chosen here arbitrarily) becomes the picked
   * time, -1 meaning "none picked yet", and any later different value fails.
   */
  method Satisfied(a: Assignment) returns (ok: bool)
    ensures |a| <= 1 ==> ok
    ensures SameTime(a) ==> ok
    ensures ok ==> forall u1, u2 :: u1 in a && u2 in a && a[u1] != -1 && a[u2] != -1 ==> a[u1] == a[u2]
    ensures (forall u :: u in a ==> a[u] != -1) ==> (ok <==> SameTime(a))
  {
    if |a| == 1 {
      forall u1, u2 | u1 in a && u2 in a
        ensures a[u1] == a[u2]
      {
        if u1 != u2 {
          TwoKeys(a, u1, u2);
        }
      }
      return true;
    }
    var picked := -1;
    var todo := a.Keys;
    while todo != {}
      invariant todo <= a.Keys
      invariant picked == -1 ==> forall u :: u in a && u !in todo ==> a[u] == -1
      invariant picked != -1 ==> exists u :: u in a && u !in todo && a[u] == picked
      invariant picked != -1 ==> forall u :: u in a && u !in todo ==> a[u] == picked || a[u] == -1
      decreases todo
    {
      EmptyOrMember(todo);
      var u :| u in todo;
      var t := a[u];
      todo := todo - {u};
      if picked == -1 {
        picked := t;
        continue;
      }
      if t != picked {
        var w :| w in a && w !in todo && a[w] == picked;
        TwoKeys(a, u, w);
        return false;
      }
    }
    return true;
  }

  /** Two different keys make a map of at least two entries. */
  lemma TwoKeys(a: Assignment, u1: int, u2: int)
    requires u1 in a && u2 in a && u1 != u2
    ensures |a| >= 2
  {
    var rest := a.Keys - {u1};
    assert a.Keys == rest + {u1};
    assert u2 in rest;
  }

  /** All busy intervals of all employees, employee by employee. */
  function Flatten(schedule: seq<seq<Interval>>): seq<Interval>
  {
    if schedule == [] then [] else Flatten(schedule[..|schedule| - 1]) + schedule[|schedule| - 1]
  }

  /** One step of the scan for `low`: -1 means nothing seen yet. */
  function LowStep(low: int, start: int): int
  {
    if low == -1 then start else if start < low then start else low
  }

  /** One step of the scan for `high`: -1 means nothing seen yet. */
  function HighStep(high: int, end: int): int
  {
    if high == -1 then end else if end > high then end else high
  }

  /** `low` after scanning `ivs` in order. */
  function Low(ivs: seq<Interval>): int
  {
    if ivs == [] then -1 else LowStep(Low(ivs[..|ivs| - 1]), ivs[|ivs| - 1].start)
  }

  /** `high` after scanning `ivs` in order. */
  function High(ivs: seq<Interval>): int
  {
    if ivs == [] then -1 else HighStep(High(ivs[..|ivs| - 1]), ivs[|ivs| - 1].end)
  }

  /** The range scan at the start of employeeFreeTime. */
  method ScanRange(schedule: seq<seq<Interval>>) returns (low: int, high: int)
    ensures low == Low(Flatten(schedule)) && high == High(Flatten(schedule))
  {
    low, high := -1, -1;
    for i := 0 to |schedule|
      invariant low == Low(Flatten(schedule[..i])) && high == High(Flatten(schedule[..i]))
    {
      var slots := schedule[i];
      ghost var seen := Flatten(schedule[..i]);
      assert seen + slots[..0] == seen;
      for j := 0 to |slots|
        invariant low == Low(seen + slots[..j]) && high == High(seen + slots[..j])
      {
        var slot := slots[j];
        if low == -1 {
          low := slot.start;
        } else if slot.start < low {
          low := slot.start;
        }
        if high == -1 {
          high := slot.end;
        } else if slot.end > high {
          high := slot.end;
        }
        ScanSnoc(seen, slots, j);
      }
      FlattenSnoc(schedule, i);
    }
    assert schedule[..|schedule|] == schedule;
  }

  /** Scanning one more interval is one more step of each scan. */
  lemma ScanSnoc(seen: seq<Interval>, slots: seq<Interval>, j: nat)
    requires j < |slots|
    ensures Low(seen + slots[..j + 1]) == LowStep(Low(seen + slots[..j]), slots[j].start)
    ensures High(seen + slots[..j + 1]) == HighStep(High(seen + slots[..j]), slots[j].end)
  {
    assert (seen + slots[..j + 1])[..|seen| + j] == seen + slots[..j];
  }

  /** The intervals of one more employee follow those already scanned. */
  lemma FlattenSnoc(schedule: seq<seq<Interval>>, i: nat)
    requires i < |schedule|
    ensures Flatten(schedule[..i + 1]) == Flatten(schedule[..i]) + schedule[i][..|schedule[i]|]
  {
    assert schedule[..i + 1][..i] == schedule[..i];
    assert schedule[i][..|schedule[i]|] == schedule[i];
  }

  /** The intervals scanned are those of every employee. */
  lemma {:induction false} FlattenMembers(schedule: seq<seq<Interval>>)
    ensures forall iv :: iv in Flatten(schedule) <==> exists e :: 0 <= e < |schedule| && iv in schedule[e]
  {
    if schedule != [] {
      var n := |schedule| - 1;
      FlattenMembers(schedule[..n]);
      assert forall e :: 0 <= e < n ==> schedule[..n][e] == schedule[e];
    }
  }

  /**
   * With no negative start, the scan finds -1 exactly for no intervals and
   * otherwise the earliest start.
   */
  lemma {:induction false} LowIsMin(ivs: seq<Interval>)
    requires forall k :: 0 <= k < |ivs| ==> ivs[k].start >= 0
    ensures ivs == [] <==> Low(ivs) == -1
    ensures ivs != [] ==> exists k :: 0 <= k < |ivs| && ivs[k].start == Low(ivs)
    ensures forall k :: 0 <= k < |ivs| ==> Low(ivs) <= ivs[k].start
  {
    if ivs != [] {
      var n := |ivs| - 1;
      var p := ivs[..n];
      assert forall k :: 0 <= k < n ==> p[k] == ivs[k];
      LowIsMin(p);
      if p != [] {
        var k :| 0 <= k < |p| && p[k].start == Low(p);
        assert ivs[k].start == Low(p);
      }
    }
  }

  /**
   * With no negative end, the scan finds -1 exactly for no intervals and
   * otherwise the latest end.
   */
  lemma {:induction false} HighIsMax(ivs: seq<Interval>)
    requires forall k :: 0 <= k < |ivs| ==> ivs[k].end >= 0
    ensures ivs == [] <==> High(ivs) == -1
    ensures ivs != [] ==> exists k :: 0 <= k < |ivs| && ivs[k].end == High(ivs)
    ensures forall k :: 0 <= k < |ivs| ==> ivs[k].end <= High(ivs)
  {
    if ivs != [] {
      var n := |ivs| - 1;
      var p := ivs[..n];
      assert forall k :: 0 <= k < n ==> p[k] == ivs[k];
      HighIsMax(p);
      if p != [] {
        var k :| 0 <= k < |p| && p[k].end == High(p);
        assert ivs[k].end == High(p);
      }
    }
  }

  /** Unit `t` lies in one of the busy intervals. */
  predicate Busy(intervals: seq<Interval>, t: int)
  {
    exists k :: 0 <= k < |intervals| && intervals[k].start <= t < intervals[k].end
  }

  /** The units of `[low, high)` outside every busy interval, in ascending order. */
  function FreeUnits(low: int, high: int, intervals: seq<Interval>): seq<int>
    decreases high - low
  {
    if high <= low then []
    else FreeUnits(low, high - 1, intervals) + (if Busy(intervals, high - 1) then [] else [high - 1])
  }

  /** One more interval covers its own units besides those already covered. */
  lemma BusySnoc(intervals: seq<Interval>, k: nat)
    requires k < |intervals|
    ensures forall t :: Busy(intervals[..k + 1], t)
                        <==> Busy(intervals[..k], t) || intervals[k].start <= t < intervals[k].end
  {
    assert forall m :: 0 <= m < k ==> intervals[..k + 1][m] == intervals[..k][m];
    assert intervals[..k + 1][k] == intervals[k];
  }

  /**
   * revertSchedule: marks every unit of every busy interval as occupied, then
   * lists the units of `[low, high)` that are not.
   */
  method RevertSchedule(low: int, high: int, intervals: seq<Interval>) returns (r: seq<int>)
    ensures r == FreeUnits(low, high, intervals)
  {
    var occupied: map<int, bool> := map[];
    for k := 0 to |intervals|
      invariant forall t :: t in occupied <==> Busy(intervals[..k], t)
    {
      var iv := intervals[k];
      var i := iv.start;
      while i < iv.end
        invariant iv.start <= i && (i <= iv.end || i == iv.start)
        invariant forall t :: t in occupied <==> Busy(intervals[..k], t) || iv.start <= t < i
        decreases iv.end - i
      {
        occupied := occupied[i := true];
        i := i + 1;
      }
      BusySnoc(intervals, k);
    }
    assert intervals[..|intervals|] == intervals;
    r := [];
    var i := low;
    while i < high
      invariant low <= i && (i <= high || i == low)
      invariant r == FreeUnits(low, i, intervals)
      decreases high - i
    {
      if i !in occupied {
        r := r + [i];
      }
      i := i + 1;
    }
  }

  /** A list whose every element is below the next. */
  predicate Ascending(s: seq<int>)
  {
    forall p, q :: 0 <= p < q < |s| ==> s[p] < s[q]
  }

  /**
   * The free units are exactly the units of `[low, high)` no busy interval
   * covers, each once, in strictly ascending order.
   */
  lemma {:induction false} FreeUnitsSpec(low: int, high: int, intervals: seq<Interval>)
    ensures forall t :: t in FreeUnits(low, high, intervals) <==> low <= t < high && !Busy(intervals, t)
    ensures Ascending(FreeUnits(low, high, intervals))
    decreases high - low
  {
    if low < high {
      var p := FreeUnits(low, high - 1, intervals);
      FreeUnitsSpec(low, high - 1, intervals);
      assert forall q :: 0 <= q < |p| ==> p[q] < high - 1 by {
        forall q | 0 <= q < |p|
          ensures p[q] < high - 1
        {
          assert p[q] in p;
        }
      }
    }
  }

  /** The units `[start, end)` in ascending order. */
  function Range(start: int, end: int): seq<int>
    decreases end - start
  {
    if end <= start then [] else Range(start, end - 1) + [end - 1]
  }

  /** The units the intervals cover, interval by interval. */
  function Expand(r: seq<Interval>): seq<int>
  {
    if r == [] then [] else Expand(r[..|r| - 1]) + Range(r[|r| - 1].start, r[|r| - 1].end)
  }

  /**
   * One step of the merge of employeeFreeTime: a unit equal to the end of the
   * last interval extends it by one, any other opens a new one-unit interval.
   */
  function Merge(p: seq<Interval>, x: int): (r: seq<Interval>)
    requires |p| > 0
    ensures |r| > 0
  {
    var last := p[|p| - 1];
    if x == last.end then p[|p| - 1 := Interval(last.start, last.end + 1)]
    else p + [Interval(x, x + 1)]
  }

  /** The merge of employeeFreeTime: the first unit opens an interval, each later one is merged in. */
  function Runs(slots: seq<int>): (r: seq<Interval>)
    requires |slots| > 0
    ensures |r| > 0
  {
    if |slots| == 1 then [Interval(slots[0], slots[0] + 1)]
    else Merge(Runs(slots[..|slots| - 1]), slots[|slots| - 1])
  }

  /** The merge loop; extending `last` in place is the update of the last element. */
  method MergeSlots(slots: seq<int>) returns (r: seq<Interval>)
    requires |slots| > 0
    ensures r == Runs(slots)
  {
    r := [Interval(slots[0], slots[0] + 1)];
    for i := 1 to |slots|
      invariant r == Runs(slots[..i])
    {
      var last := r[|r| - 1];
      if slots[i] == last.end {
        r := r[|r| - 1 := Interval(last.start, last.end + 1)];
      } else {
        r := r + [Interval(slots[i], slots[i] + 1)];
      }
      assert slots[..i + 1][..i] == slots[..i];
    }
    assert slots[..|slots|] == slots;
  }

  lemma ExpandSnoc(q: seq<Interval>, iv: Interval)
    ensures Expand(q + [iv]) == Expand(q) + Range(iv.start, iv.end)
  {
    assert (q + [iv])[..|q|] == q;
  }

  lemma RangeSnoc(start: int, end: int)
    requires start <= end
    ensures Range(start, end + 1) == Range(start, end) + [end]
  {
  }

  /**
   * Merging loses and invents no unit: the merged intervals, expanded, give
   * back the slots in order, and none of them is empty.
   */
  lemma {:induction false} RunsExpand(slots: seq<int>)
    requires |slots| > 0
    ensures Expand(Runs(slots)) == slots
    ensures forall k :: 0 <= k < |Runs(slots)| ==> Runs(slots)[k].start < Runs(slots)[k].end
  {
    if |slots| == 1 {
      ExpandSnoc([], Interval(slots[0], slots[0] + 1));
    } else {
      var s := slots[..|slots| - 1];
      var x := slots[|slots| - 1];
      RunsExpand(s);
      RunsExpandStep(Runs(s), x);
      assert s + [x] == slots;
    }
  }

  /** One merge step appends its unit to the expansion and keeps every interval non-empty. */
  lemma RunsExpandStep(p: seq<Interval>, x: int)
    requires |p| > 0 && forall k :: 0 <= k < |p| ==> p[k].start < p[k].end
    ensures Expand(Merge(p, x)) == Expand(p) + [x]
    ensures forall k :: 0 <= k < |Merge(p, x)| ==> Merge(p, x)[k].start < Merge(p, x)[k].end
  {
    var last := p[|p| - 1];
    var q := p[..|p| - 1];
    assert p == q + [last];
    ExpandSnoc(q, last);
    if x == last.end {
      UpdateLast(q, last, Interval(last.start, last.end + 1));
      ExtendLast(q, last);
    } else {
      ExpandSnoc(p, Interval(x, x + 1));
      assert Range(x, x + 1) == [x];
    }
  }

  lemma UpdateLast(q: seq<Interval>, last: Interval, iv: Interval)
    ensures (q + [last])[|q| := iv] == q + [iv]
  {
  }

  lemma ExtendLast(q: seq<Interval>, last: Interval)
    requires last.start < last.end
    ensures Expand(q + [Interval(last.start, last.end + 1)]) == Expand(q) + Range(last.start, last.end) + [last.end]
  {
    ExpandSnoc(q, Interval(last.start, last.end + 1));
    RangeSnoc(last.start, last.end);
  }

  /**
   * For strictly ascending slots the merged intervals are ascending and
   * separated by at least one unit (adjacent runs are always merged), and
   * the last ends just after the last slot.
   */
  lemma {:induction false} RunsSeparated(slots: seq<int>)
    requires |slots| > 0 && Ascending(slots)
    ensures Runs(slots)[|Runs(slots)| - 1].end == slots[|slots| - 1] + 1
    ensures forall k :: 0 <= k < |Runs(slots)| - 1 ==> Runs(slots)[k].end < Runs(slots)[k + 1].start
  {
    if |slots| > 1 {
      var s := slots[..|slots| - 1];
      assert Ascending(s) by {
        assert forall p :: 0 <= p < |s| ==> s[p] == slots[p];
      }
      RunsSeparated(s);
      assert slots[|slots| - 2] < slots[|slots| - 1];
    }
  }

  /** Unit `t` is in the domain of every employee of `ids`. */
  predicate CommonSlot(ids: seq<int>, dom: DomainMap, t: int)
  {
    forall j :: 0 <= j < |ids| ==> t in DomainOf(dom, ids[j])
  }

  /**
   * Under the free-time constraint the engine returns only assignments that
   * put every employee on the same unit, one of that employee's domain.
   */
  lemma FreeTimeSolutionSound(ids: seq<int>, dom: DomainMap)
    requires Distinct(ids)
    requires Solve(ids, dom, [FreeTimeConstraint(ids)]).Ok? && Solve(ids, dom, [FreeTimeConstraint(ids)]).value.Some?
    ensures var r := Solve(ids, dom, [FreeTimeConstraint(ids)]).value.value;
            r.Keys == Elems(ids) && SameTime(r) && forall j :: 0 <= j < |ids| ==> r[ids[j]] in DomainOf(dom, ids[j])
  {
    var c := FreeTimeConstraint(ids);
    var r := Solve(ids, dom, [c]).value.value;
    SolveSound(ids, dom, [c]);
    if ids != [] {
      assert ids[|ids| - 1] in c.vars;
      AcceptedAt(ids, dom, [c], r, |ids| - 1, 0);
      FullPrefix(r, ids);
    }
  }

  /** Whenever the employees have a unit in common, the engine finds a solution. */
  lemma FreeTimeSolutionComplete(ids: seq<int>, dom: DomainMap, t: int)
    requires Distinct(ids) && CommonSlot(ids, dom, t)
    ensures Solve(ids, dom, [FreeTimeConstraint(ids)]).Ok? && Solve(ids, dom, [FreeTimeConstraint(ids)]).value.Some?
  {
    var c := FreeTimeConstraint(ids);
    var s := map u | u in Elems(ids) :: t;
    assert s.Keys == Elems(ids);
    forall j | 0 <= j < |ids|
      ensures s[ids[j]] in DomainOf(dom, ids[j]) && SameTime(Prefix(s, ids, j + 1))
    {
    }
    assert Accepted(ids, dom, [c], s);
    SolveComplete(ids, dom, [c], s);
  }

  /**
   * The units of `[low, high)` free for every employee, ascending: what the
   * engine's solutions under the free-time constraint pick, one unit per
   * solution, before they are merged.
   */
  function CommonUnits(low: int, high: int, schedule: seq<seq<Interval>>): seq<int>
    decreases high - low
  {
    if high <= low then []
    else
      CommonUnits(low, high - 1, schedule)
      + (if FreeForAll(schedule, high - 1) then [high - 1] else [])
  }

  /** No employee is busy at unit `t`. */
  predicate FreeForAll(schedule: seq<seq<Interval>>, t: int)
  {
    forall e :: 0 <= e < |schedule| ==> !Busy(schedule[e], t)
  }

  /** A common unit is a unit in the free list of every employee, and the list ascends. */
  lemma {:induction false} CommonUnitsSpec(low: int, high: int, schedule: seq<seq<Interval>>)
    ensures forall t :: t in CommonUnits(low, high, schedule)
                        <==> low <= t < high && forall e :: 0 <= e < |schedule| ==> t in FreeUnits(low, high, schedule[e])
    ensures Ascending(CommonUnits(low, high, schedule))
    decreases high - low
  {
    forall e | 0 <= e < |schedule|
      ensures forall t :: t in FreeUnits(low, high, schedule[e]) <==> low <= t < high && !Busy(schedule[e], t)
    {
      FreeUnitsSpec(low, high, schedule[e]);
    }
    if low < high {
      var p := CommonUnits(low, high - 1, schedule);
      CommonUnitsSpec(low, high - 1, schedule);
      forall e | 0 <= e < |schedule|
        ensures forall t :: t in FreeUnits(low, high - 1, schedule[e]) <==> low <= t < high - 1 && !Busy(schedule[e], t)
      {
        FreeUnitsSpec(low, high - 1, schedule[e]);
      }
      assert forall q :: 0 <= q < |p| ==> p[q] < high - 1 by {
        forall q | 0 <= q < |p|
          ensures p[q] < high - 1
        {
          assert p[q] in p;
        }
      }
    }
  }

  /** The first schedule of the tests. */
  function FirstSchedule(): seq<seq<Interval>>
  {
    [[Interval(1, 2), Interval(5, 6)], [Interval(1, 3)], [Interval(4, 10)]]
  }

  /** The second schedule of the tests. */
  function SecondSchedule(): seq<seq<Interval>>
  {
    [[Interval(1, 3), Interval(6, 7)], [Interval(2, 4)], [Interval(2, 5), Interval(9, 12)]]
  }

  /** Units every one of which some employee is busy at add nothing. */
  lemma {:induction false} CommonSkip(low: int, mid: int, high: int, schedule: seq<seq<Interval>>)
    requires low <= mid <= high
    requires forall t :: mid <= t < high ==> !FreeForAll(schedule, t)
    ensures CommonUnits(low, high, schedule) == CommonUnits(low, mid, schedule)
    decreases high - mid
  {
    if mid < high {
      CommonSkip(low, mid, high - 1, schedule);
    }
  }

  /** A unit free for every employee is added. */
  lemma CommonKeep(low: int, high: int, schedule: seq<seq<Interval>>)
    requires low <= high && FreeForAll(schedule, high)
    ensures CommonUnits(low, high + 1, schedule) == CommonUnits(low, high, schedule) + [high]
  {
  }

  /** The intervals of the first schedule span `[1, 10)`. */
  lemma FirstRange()
    ensures Low(Flatten(FirstSchedule())) == 1 && High(Flatten(FirstSchedule())) == 10
  {
    var s := FirstSchedule();
    var i1 := [Interval(1, 2), Interval(5, 6)];
    var i2 := i1 + [Interval(1, 3)];
    var i3 := i2 + [Interval(4, 10)];
    assert Flatten(s) == i3 by {
      assert s[..1][..0] == [] && s[..2][..1] == s[..1] && s[..3][..2] == s[..2] && s[..3] == s;
      assert Flatten(s[..1]) == i1;
      assert Flatten(s[..2]) == i2;
    }
    assert i1[..1] == [Interval(1, 2)] && [Interval(1, 2)][..0] == [];
    assert Low(i1) == 1 && High(i1) == 6;
    assert i2[..2] == i1;
    assert Low(i2) == 1 && High(i2) == 6;
    assert i3[..3] == i2;
  }

  /** Who is busy when in the first schedule. */
  lemma FirstBusy()
    ensures forall t :: 1 <= t < 3 || 4 <= t < 10 ==> !FreeForAll(FirstSchedule(), t)
    ensures FreeForAll(FirstSchedule(), 3)
  {
    var s := FirstSchedule();
    forall t | 1 <= t < 3 || 4 <= t < 10
      ensures !FreeForAll(s, t)
    {
      if t == 1 {
        assert s[0][0].start <= t < s[0][0].end;
        assert Busy(s[0], t);
      } else if t == 2 {
        assert s[1][0].start <= t < s[1][0].end;
        assert Busy(s[1], t);
      } else {
        assert s[2][0].start <= t < s[2][0].end;
        assert Busy(s[2], t);
      }
    }
  }

  /** A schedule busy at 1, 2 and 4..9 and free at 3 has the single common unit 3 in `[1, 10)`. */
  lemma FirstChain(s: seq<seq<Interval>>)
    requires forall t :: 1 <= t < 3 || 4 <= t < 10 ==> !FreeForAll(s, t)
    requires FreeForAll(s, 3)
    ensures CommonUnits(1, 10, s) == [3]
  {
    CommonSkip(1, 1, 3, s);
    CommonKeep(1, 3, s);
    CommonSkip(1, 4, 10, s);
  }

  /** The merged free time of the first schedule is `[3, 4)`. */
  lemma FirstExample()
    ensures var s := FirstSchedule();
            var units := CommonUnits(Low(Flatten(s)), High(Flatten(s)), s);
            units == [3] && Runs(units) == [Interval(3, 4)]
  {
    FirstRange();
    FirstBusy();
    FirstChain(FirstSchedule());
  }
  /** The intervals of the second schedule span `[1, 12)`. */
  lemma SecondRange()
    ensures Low(Flatten(SecondSchedule())) == 1 && High(Flatten(SecondSchedule())) == 12
  {
    var s := SecondSchedule();
    var i1 := [Interval(1, 3), Interval(6, 7)];
    var i2 := i1 + [Interval(2, 4)];
    var i3 := i2 + [Interval(2, 5)];
    var i4 := i3 + [Interval(9, 12)];
    assert Flatten(s) == i4 by {
      assert s[..1][..0] == [] && s[..2][..1] == s[..1] && s[..3][..2] == s[..2] && s[..3] == s;
      assert Flatten(s[..1]) == i1;
      assert Flatten(s[..2]) == i2;
    }
    assert i1[..1] == [Interval(1, 3)] && [Interval(1, 3)][..0] == [];
    assert Low(i1) == 1 && High(i1) == 7;
    assert i2[..2] == i1;
    assert Low(i2) == 1 && High(i2) == 7;
    assert i3[..3] == i2;
    assert Low(i3) == 1 && High(i3) == 7;
    assert i4[..4] == i3;
  }

  /** Who is busy when in the second schedule. */
  lemma SecondBusy()
    ensures forall t :: 1 <= t < 5 || t == 6 || 9 <= t < 12 ==> !FreeForAll(SecondSchedule(), t)
    ensures FreeForAll(SecondSchedule(), 5) && FreeForAll(SecondSchedule(), 7) && FreeForAll(SecondSchedule(), 8)
  {
    var s := SecondSchedule();
    forall t | 1 <= t < 5 || t == 6 || 9 <= t < 12
      ensures !FreeForAll(s, t)
    {
      if t < 3 {
        assert s[0][0].start <= t < s[0][0].end;
        assert Busy(s[0], t);
      } else if t == 3 {
        assert s[1][0].start <= t < s[1][0].end;
        assert Busy(s[1], t);
      } else if t == 4 {
        assert s[2][0].start <= t < s[2][0].end;
        assert Busy(s[2], t);
      } else if t == 6 {
        assert s[0][1].start <= t < s[0][1].end;
        assert Busy(s[0], t);
      } else {
        assert s[2][1].start <= t < s[2][1].end;
        assert Busy(s[2], t);
      }
    }
  }

  /** A schedule busy at 1..4, 6 and 9..11 and free at 5, 7 and 8 has the common units 5, 7, 8 in `[1, 12)`. */
  lemma SecondChain(s: seq<seq<Interval>>)
    requires forall t :: 1 <= t < 5 || t == 6 || 9 <= t < 12 ==> !FreeForAll(s, t)
    requires FreeForAll(s, 5) && FreeForAll(s, 7) && FreeForAll(s, 8)
    ensures CommonUnits(1, 12, s) == [5, 7, 8]
  {
    CommonSkip(1, 1, 5, s);
    CommonKeep(1, 5, s);
    CommonSkip(1, 6, 7, s);
    CommonKeep(1, 7, s);
    CommonKeep(1, 8, s);
    CommonSkip(1, 9, 12, s);
  }

  lemma SecondMerge()
    ensures Runs([5, 7, 8]) == [Interval(5, 6), Interval(7, 9)]
  {
    assert [5, 7, 8][..2] == [5, 7] && [5, 7][..1] == [5];
  }

  /** The merged free time of the second schedule is `[5, 6)` and `[7, 9)`. */
  lemma SecondExample()
    ensures var s := SecondSchedule();
            var units := CommonUnits(Low(Flatten(s)), High(Flatten(s)), s);
            units == [5, 7, 8] && Runs(units) == [Interval(5, 6), Interval(7, 9)]
  {
    SecondRange();
    SecondBusy();
    SecondChain(SecondSchedule());
    SecondMerge();
  }
}
