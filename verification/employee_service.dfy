/**
 The employee service (EmployeeService): derived queries over the list the
 cache serves (name search, highest salary, top-ten earners) and the
 create/delete sequencing that decides when the cache is mutated.
 */
module EmployeeService {
  import opened Types
  import opened Seqs
  import opened ExpiringStore
  import opened EmployeeCache

  /** The single string every unsuccessful delete reports. */
  const DeleteFailed: string := "Failed to delete employee."

  /** How many names the top-earners query keeps at most. */
  const TopCount: nat := 10

  // ---------------------------------------------------------------- name search

  /** String.contains: needle occurs in hay as a contiguous run (the empty string occurs everywhere). */
  predicate Contains(hay: string, needle: string)
    decreases |hay|
  {
    needle <= hay || (hay != [] && Contains(hay[1..], needle))
  }

  /** needle occurs in hay starting at position i. */
  predicate OccursAt(hay: string, needle: string, i: int) {
    0 <= i && i + |needle| <= |hay| && hay[i..i + |needle|] == needle
  }

  /** Contains agrees with the definition by position: some slice of hay equals needle. */
  lemma {:induction false} ContainsIffOccurs(hay: string, needle: string)
    ensures Contains(hay, needle) <==> exists i :: OccursAt(hay, needle, i)
    decreases |hay|
  {
    if needle <= hay {
      assert OccursAt(hay, needle, 0);
    } else if hay == [] {
    } else {
      ContainsIffOccurs(hay[1..], needle);
      if Contains(hay[1..], needle) {
        var j :| OccursAt(hay[1..], needle, j);
        OccursInTail(hay, needle, j);
      }
      if exists i :: OccursAt(hay, needle, i) {
        var i :| OccursAt(hay, needle, i);
        if i > 0 {
          OccursInTail(hay, needle, i - 1);
        }
      }
    }
  }

  /** An occurrence at j in the tail of hay is an occurrence at j + 1 in hay, and conversely. */
  lemma OccursInTail(hay: string, needle: string, j: nat)
    requires hay != []
    ensures OccursAt(hay[1..], needle, j) <==> OccursAt(hay, needle, j + 1)
  {
    if j + |needle| <= |hay[1..]| {
      assert hay[1..][j..j + |needle|] == hay[j + 1..j + 1 + |needle|];
    }
  }

  /** The search keeps an employee iff its name is non-null and contains the search string (case-sensitive). */
  predicate NameMatches(e: Employee, searchString: string) {
    e.name.Some? && Contains(e.name.value, searchString)
  }

  /**
   getEmployeesByNameSearch: reads all employees through the cache and keeps,
   in order, those whose name matches. Exceptions from the cache propagate;
   a null data list yields the empty list. When the cache had something
   observable, each employee is returned as often as live entries hold it if
   it matches, and not at all otherwise.
   */
  function GetEmployeesByNameSearch(st: Store, now: nat, fetchAll: Reply<seq<Employee>>, searchString: string)
    : (s: Step<seq<Employee>>)
    ensures var g := GetAllEmployees(st, now, fetchAll);
            && s.store == g.store && s.upstreamCalled == g.upstreamCalled
            && (g.result.Threw? ==> s.result == Threw(g.result.fault))
            && (g.result.Returned? && g.result.value.data.None? ==> s.result == Returned([]))
            && (g.result.Returned? && g.result.value.data.Some? ==>
                  var es := g.result.value.data.value;
                  && s.result.Returned?
                  && IsSubsequence(s.result.value, es)
                  && forall e :: multiset(s.result.value)[e] ==
                                 if NameMatches(e, searchString) then multiset(es)[e] else 0)
    ensures LiveKeys(st, now) != {} ==>
      && s.result.Returned?
      && forall e :: multiset(s.result.value)[e] ==
                     if NameMatches(e, searchString) then LiveCount(st, now, e) else 0
  {
    var g := GetAllEmployees(st, now, fetchAll);
    match g.result
    case Threw(f) => Step(Threw(f), g.store, g.upstreamCalled)
    case Returned(resp) =>
      if resp.data.None? || resp.data.value == [] then Step(Returned([]), g.store, g.upstreamCalled)
      else Step(Returned(Filter(resp.data.value, e => NameMatches(e, searchString))), g.store, g.upstreamCalled)
  }

  // ---------------------------------------------------------------- highest salary

  /** The largest non-null salary in es, or None when no employee has one. */
  function MaxSalary(es: seq<Employee>): (r: Option<Int32>)
    ensures r.None? <==> forall i :: 0 <= i < |es| ==> es[i].salary.None?
    ensures r.Some? ==> exists i :: 0 <= i < |es| && es[i].salary == r
    ensures r.Some? ==> forall i :: 0 <= i < |es| && es[i].salary.Some? ==> es[i].salary.value <= r.value
  {
    if es == [] then None
    else
      var rest := MaxSalary(es[1..]);
      assert forall i :: 1 <= i < |es| ==> es[i] == es[1..][i - 1];
      match es[0].salary
      case None => rest
      case Some(v) =>
        if rest.Some? && v < rest.value then rest else Some(v)
  }

  /**
   The highest salary of a data list as the service computes it: 0 for a
   null or empty list or one without any salary, otherwise a salary some
   employee has that no employee's salary exceeds.
   */
  function HighestSalary(data: Option<seq<Employee>>): (r: Int32)
    ensures data.None? ==> r == 0
    ensures data.Some? && (forall i :: 0 <= i < |data.value| ==> data.value[i].salary.None?) ==> r == 0
    ensures data.Some? && (exists i :: 0 <= i < |data.value| && data.value[i].salary.Some?) ==>
      && (exists i :: 0 <= i < |data.value| && data.value[i].salary == Some(r))
      && forall i :: 0 <= i < |data.value| && data.value[i].salary.Some? ==> data.value[i].salary.value <= r
  {
    if data.None? || data.value == [] then 0 else MaxSalary(data.value).GetOr(0)
  }

  /** True iff some live entry holds an employee with salary v. */
  ghost predicate LiveSalary(st: Store, now: nat, v: Int32) {
    exists k :: IsLive(st, now, k) && st[k].value.salary == Some(v)
  }

  /**
   getHighestSalaryOfEmployees: the highest salary of the list read through
   the cache; exceptions from the cache propagate. When the cache had
   something observable, the answer is a salary held by a live entry that no
   live salary exceeds, or 0 when no live entry has a salary.
   */
  function GetHighestSalaryOfEmployees(st: Store, now: nat, fetchAll: Reply<seq<Employee>>)
    : (s: Step<Int32>)
    ensures var g := GetAllEmployees(st, now, fetchAll);
            && s.store == g.store && s.upstreamCalled == g.upstreamCalled
            && (g.result.Threw? ==> s.result == Threw(g.result.fault))
            && (g.result.Returned? ==> s.result == Returned(HighestSalary(g.result.value.data)))
    ensures LiveKeys(st, now) != {} ==>
      && s.result.Returned?
      && ((forall k :: IsLive(st, now, k) ==> st[k].value.salary.None?) ==> s.result.value == 0)
      && ((exists k :: IsLive(st, now, k) && st[k].value.salary.Some?) ==>
            && LiveSalary(st, now, s.result.value)
            && forall k :: IsLive(st, now, k) && st[k].value.salary.Some? ==> st[k].value.salary.value <= s.result.value)
  {
    var g := GetAllEmployees(st, now, fetchAll);
    match g.result
    case Threw(f) => Step(Threw(f), g.store, g.upstreamCalled)
    case Returned(resp) =>
      var r := HighestSalary(resp.data);
      if LiveKeys(st, now) != {} then
        HighestSalaryOnHit(st, now, resp.data.value, r);
        Step(Returned(r), g.store, g.upstreamCalled)
      else
        Step(Returned(r), g.store, g.upstreamCalled)
  }

  /** On a cache hit, the highest salary of the served list is the highest salary among live entries. */
  lemma HighestSalaryOnHit(st: Store, now: nat, vs: seq<Employee>, r: Int32)
    requires forall e :: multiset(vs)[e] == LiveCount(st, now, e)
    requires r == HighestSalary(Some(vs))
    ensures (forall k :: IsLive(st, now, k) ==> st[k].value.salary.None?) ==> r == 0
    ensures (exists k :: IsLive(st, now, k) && st[k].value.salary.Some?) ==>
            && LiveSalary(st, now, r)
            && forall k :: IsLive(st, now, k) && st[k].value.salary.Some? ==> st[k].value.salary.value <= r
  {
    LiveValuesAreLiveEntries(st, now, vs);
    if exists k :: IsLive(st, now, k) && st[k].value.salary.Some? {
      var k :| IsLive(st, now, k) && st[k].value.salary.Some?;
      var i :| 0 <= i < |vs| && vs[i] == st[k].value;
      var j :| 0 <= j < |vs| && vs[j].salary == Some(r);
      var k' :| IsLive(st, now, k') && st[k'].value == vs[j];
      assert LiveSalary(st, now, r);
      forall k2 | IsLive(st, now, k2) && st[k2].value.salary.Some?
        ensures st[k2].value.salary.value <= r
      {
        var i2 :| 0 <= i2 < |vs| && vs[i2] == st[k2].value;
      }
    } else {
      forall i | 0 <= i < |vs| ensures vs[i].salary.None? {
        var k :| IsLive(st, now, k) && st[k].value == vs[i];
      }
    }
  }

  /** True iff some live entry holds e. */
  ghost predicate HeldLive(st: Store, now: nat, e: Employee) {
    exists k :: IsLive(st, now, k) && st[k].value == e
  }

  /** The values the cache serves are exactly the values of its live entries. */
  lemma LiveValuesAreLiveEntries(st: Store, now: nat, vs: seq<Employee>)
    requires forall e :: multiset(vs)[e] == LiveCount(st, now, e)
    ensures forall i :: 0 <= i < |vs| ==> HeldLive(st, now, vs[i])
    ensures forall k :: IsLive(st, now, k) ==> st[k].value in vs
  {
    forall i | 0 <= i < |vs| ensures HeldLive(st, now, vs[i]) {
      assert multiset(vs)[vs[i]] > 0;
      assert LiveKeysHolding(st, now, vs[i]) != {};
      var k :| k in LiveKeysHolding(st, now, vs[i]);
      assert IsLive(st, now, k) && st[k].value == vs[i];
    }
    forall k | IsLive(st, now, k) ensures st[k].value in vs {
      assert k in LiveKeysHolding(st, now, st[k].value);
      assert multiset(vs)[st[k].value] > 0;
    }
  }

  // ---------------------------------------------------------------- top ten earners

  predicate HasSalary(e: Employee) {
    e.salary.Some?
  }

  predicate AllSalaried(es: seq<Employee>) {
    forall i :: 0 <= i < |es| ==> es[i].salary.Some?
  }

  /** Salaries never increase along es. */
  predicate NonIncreasing(es: seq<Employee>)
    requires AllSalaried(es)
  {
    forall i, j :: 0 <= i < j < |es| ==> es[j].salary.value <= es[i].salary.value
  }

  /**
   Inserts x into a list sorted by descending salary, ahead of every
   employee earning no more than x (so x stays ahead of equal salaries that
   came after it in the input).
   */
  function InsertBySalary(x: Employee, s: seq<Employee>): (r: seq<Employee>)
    requires x.salary.Some? && AllSalaried(s) && NonIncreasing(s)
    ensures AllSalaried(r) && NonIncreasing(r)
    ensures multiset(r) == multiset(s) + multiset{x}
    ensures |r| == |s| + 1
    ensures r[0] == x || (s != [] && r[0] == s[0])
  {
    if s == [] || s[0].salary.value <= x.salary.value then
      PrependKeepsOrder(x, s);
      [x] + s
    else
      var tail := InsertBySalary(x, s[1..]);
      assert s == [s[0]] + s[1..];
      ConsKeepsOrder(s, x, tail);
      [s[0]] + tail
  }

  /** Putting an employee earning at least as much as the head in front of a sorted list keeps the order. */
  lemma PrependKeepsOrder(x: Employee, s: seq<Employee>)
    requires x.salary.Some? && AllSalaried(s) && NonIncreasing(s)
    requires s == [] || s[0].salary.value <= x.salary.value
    ensures AllSalaried([x] + s) && NonIncreasing([x] + s)
  {
    var r := [x] + s;
    forall i, j | 0 <= i < j < |r| ensures r[j].salary.value <= r[i].salary.value {
      assert r[j] == s[j - 1];
      if i > 0 {
        assert r[i] == s[i - 1];
      } else if j > 1 {
        assert s[j - 1].salary.value <= s[0].salary.value;
      }
    }
  }

  /**
   Putting the head of a sorted list back in front of its sorted tail (into
   which x, earning less than the head, was inserted) keeps the order.
   */
  lemma ConsKeepsOrder(s: seq<Employee>, x: Employee, tail: seq<Employee>)
    requires s != [] && AllSalaried(s) && NonIncreasing(s)
    requires x.salary.Some? && x.salary.value < s[0].salary.value
    requires AllSalaried(tail) && NonIncreasing(tail)
    requires multiset(tail) == multiset(s[1..]) + multiset{x}
    ensures AllSalaried([s[0]] + tail) && NonIncreasing([s[0]] + tail)
  {
    var r := [s[0]] + tail;
    forall j | 0 <= j < |tail| ensures tail[j].salary.value <= s[0].salary.value {
      assert tail[j] in multiset(tail);
      if tail[j] != x {
        assert tail[j] in multiset(s[1..]);
        var k :| 0 <= k < |s[1..]| && s[1..][k] == tail[j];
        assert s[k + 1] == tail[j];
      }
    }
    forall i, j | 0 <= i < j < |r| ensures r[j].salary.value <= r[i].salary.value {
      assert r[j] == tail[j - 1];
      if i > 0 {
        assert r[i] == tail[i - 1];
      }
    }
  }

  /** The sort of the top-earners stream: descending salary, an insertion sort that keeps ties in input order. */
  function SortBySalaryDesc(es: seq<Employee>): (r: seq<Employee>)
    requires AllSalaried(es)
    ensures AllSalaried(r) && NonIncreasing(r)
    ensures multiset(r) == multiset(es)
    ensures |r| == |es|
  {
    if es == [] then []
    else
      assert es == [es[0]] + es[1..];
      InsertBySalary(es[0], SortBySalaryDesc(es[1..]))
  }

  /**
   The employees the top-ten query reports on, before names are looked at:
   the salaried employees sorted by descending salary, cut to ten. They are
   drawn from es, in non-increasing salary order, as many as there are
   salaried employees up to ten, and every salaried employee who earns more
   than one kept is kept, with all of their occurrences.
   */
  function TopEarners(es: seq<Employee>): (w: seq<Employee>)
    ensures |w| == if |Filter(es, HasSalary)| < TopCount then |Filter(es, HasSalary)| else TopCount
    ensures AllSalaried(w) && NonIncreasing(w)
    ensures multiset(w) <= multiset(es)
    ensures forall i, e: Employee :: 0 <= i < |w| && e.salary.Some? && e.salary.value > w[i].salary.value ==>
              multiset(w)[e] == multiset(es)[e]
  {
    var salaried := Filter(es, HasSalary);
    var sorted := SortBySalaryDesc(salaried);
    var n := if |sorted| < TopCount then |sorted| else TopCount;
    PrefixOfSorted(es, salaried, sorted, n);
    sorted[..n]
  }

  /** A prefix of the sorted salaried employees holds everyone who out-earns any of its members. */
  lemma PrefixOfSorted(es: seq<Employee>, salaried: seq<Employee>, sorted: seq<Employee>, n: nat)
    requires salaried == Filter(es, HasSalary)
    requires AllSalaried(sorted) && NonIncreasing(sorted) && multiset(sorted) == multiset(salaried)
    requires n <= |sorted|
    ensures AllSalaried(sorted[..n]) && NonIncreasing(sorted[..n])
    ensures multiset(sorted[..n]) <= multiset(es)
    ensures forall i, e: Employee :: 0 <= i < n && e.salary.Some? && e.salary.value > sorted[..n][i].salary.value ==>
              multiset(sorted[..n])[e] == multiset(es)[e]
  {
    PrefixIsSubMultiset(es, salaried, sorted, n);
    forall i, e: Employee | 0 <= i < n && e.salary.Some? && e.salary.value > sorted[..n][i].salary.value
      ensures multiset(sorted[..n])[e] == multiset(es)[e]
    {
      OutEarnerAllKept(es, salaried, sorted, n, i, e);
    }
  }

  lemma PrefixIsSubMultiset(es: seq<Employee>, salaried: seq<Employee>, sorted: seq<Employee>, n: nat)
    requires salaried == Filter(es, HasSalary)
    requires multiset(sorted) == multiset(salaried)
    requires n <= |sorted|
    ensures multiset(sorted[..n]) <= multiset(es)
  {
    assert sorted == sorted[..n] + sorted[n..];
    assert multiset(sorted) == multiset(sorted[..n]) + multiset(sorted[n..]);
    assert multiset(salaried) <= multiset(es) by {
      forall x ensures multiset(salaried)[x] <= multiset(es)[x] {}
    }
  }

  /** Every occurrence of someone who out-earns sorted[i] lies before the cut at n > i. */
  lemma OutEarnerAllKept(es: seq<Employee>, salaried: seq<Employee>, sorted: seq<Employee>, n: nat, i: nat, e: Employee)
    requires salaried == Filter(es, HasSalary)
    requires AllSalaried(sorted) && NonIncreasing(sorted) && multiset(sorted) == multiset(salaried)
    requires i < n <= |sorted| && e.salary.Some? && e.salary.value > sorted[i].salary.value
    ensures multiset(sorted[..n])[e] == multiset(es)[e]
  {
    assert sorted == sorted[..n] + sorted[n..];
    NoOutEarnerBeyondCut(sorted, n, i, e);
    assert multiset(sorted) == multiset(sorted[..n]) + multiset(sorted[n..]);
    assert multiset(salaried)[e] == multiset(es)[e];
  }

  /** Past the cut at n > i, nobody earns more than sorted[i]. */
  lemma NoOutEarnerBeyondCut(sorted: seq<Employee>, n: nat, i: nat, e: Employee)
    requires AllSalaried(sorted) && NonIncreasing(sorted)
    requires i < n <= |sorted| && e.salary.Some? && e.salary.value > sorted[i].salary.value
    ensures multiset(sorted[n..])[e] == 0
  {
    forall k | 0 <= k < |sorted[n..]| ensures sorted[n..][k] != e {
      assert sorted[n..][k] == sorted[n + k];
      assert sorted[n + k].salary.value <= sorted[i].salary.value;
    }
    assert e !in sorted[n..];
  }

  /** The names the query keeps: non-null and non-empty. */
  predicate IsUsableName(n: Option<string>) {
    n.Some? && n.value != ""
  }

  function NamesOf(es: seq<Employee>): (ns: seq<Option<string>>)
    ensures |ns| == |es|
    ensures forall i :: 0 <= i < |es| ==> ns[i] == es[i].name
  {
    seq(|es|, i requires 0 <= i < |es| => es[i].name)
  }

  function Unwrapped(ns: seq<Option<string>>): (r: seq<string>)
    requires forall i :: 0 <= i < |ns| ==> ns[i].Some?
    ensures |r| == |ns|
    ensures forall i :: 0 <= i < |r| ==> ns[i] == Some(r[i])
  {
    seq(|ns|, i requires 0 <= i < |ns| => ns[i].value)
  }

  /** Each name wrapped back into a (non-null) Option. */
  function Somes(r: seq<string>): (ns: seq<Option<string>>)
    ensures |ns| == |r|
    ensures forall i :: 0 <= i < |r| ==> ns[i] == Some(r[i])
  {
    seq(|r|, i requires 0 <= i < |r| => Some(r[i]))
  }

  /**
   The names of the top earners, with null and empty names dropped after the
   cut to ten: at most ten non-empty names, in the order (and so the
   non-increasing salary order) of the top earners, one per top earner whose
   name is usable.
   */
  function TopTenNames(es: seq<Employee>): (r: seq<string>)
    ensures |r| <= TopCount
    ensures forall i :: 0 <= i < |r| ==> r[i] != ""
    ensures |r| == |Filter(NamesOf(TopEarners(es)), IsUsableName)|
    ensures IsSubsequence(Somes(r), NamesOf(TopEarners(es)))
  {
    var kept := Filter(NamesOf(TopEarners(es)), IsUsableName);
    var r := Unwrapped(kept);
    assert Somes(r) == kept;
    r
  }

  /** The top-ten names are r exactly when the usable names of the top earners are r's names. */
  lemma TopTenNamesFromKept(es: seq<Employee>, r: seq<string>)
    requires Filter(NamesOf(TopEarners(es)), IsUsableName) == Somes(r)
    ensures TopTenNames(es) == r
  {
    var kept := Filter(NamesOf(TopEarners(es)), IsUsableName);
    assert Unwrapped(kept) == r;
  }

  /**
   Names are dropped after the cut: when ten or more employees have a
   salary but one of the ten kept has a null or empty name, fewer than ten
   names come back.
   */
  lemma NamesDroppedAfterLimit(es: seq<Employee>, i: nat)
    requires |Filter(es, HasSalary)| >= TopCount
    requires i < |TopEarners(es)| && !IsUsableName(TopEarners(es)[i].name)
    ensures |TopTenNames(es)| < TopCount
  {
    FilterDropsFailing(NamesOf(TopEarners(es)), IsUsableName, i);
  }

  /**
   getTopTenHighestEarningEmployeeNames: reads all employees through the
   cache; a null or empty list yields no names, exceptions propagate, and
   otherwise the result is the names of the top earners of the list.
   */
  function GetTopTenHighestEarningEmployeeNames(st: Store, now: nat, fetchAll: Reply<seq<Employee>>)
    : (s: Step<seq<string>>)
    ensures var g := GetAllEmployees(st, now, fetchAll);
            && s.store == g.store && s.upstreamCalled == g.upstreamCalled
            && (g.result.Threw? ==> s.result == Threw(g.result.fault))
            && (g.result.Returned? ==> s.result.Returned? && |s.result.value| <= TopCount)
            && (g.result.Returned? && g.result.value.data.None? ==> s.result.value == [])
            && (g.result.Returned? && g.result.value.data.Some? ==>
                  var es := g.result.value.data.value;
                  && s.result.value == TopTenNames(es)
                  && |s.result.value| == |Filter(NamesOf(TopEarners(es)), IsUsableName)|
                  && forall i :: 0 <= i < |s.result.value| ==> s.result.value[i] != "")
  {
    var g := GetAllEmployees(st, now, fetchAll);
    match g.result
    case Threw(f) => Step(Threw(f), g.store, g.upstreamCalled)
    case Returned(resp) =>
      if resp.data.None? || resp.data.value == [] then
        assert resp.data.Some? ==> TopTenNames(resp.data.value) == [];
        Step(Returned([]), g.store, g.upstreamCalled)
      else Step(Returned(TopTenNames(resp.data.value)), g.store, g.upstreamCalled)
  }

  // ---------------------------------------------------------------- create

  datatype Created = Created(employee: Option<Employee>, store: Store)

  /**
   createEmployee: asks upstream to create, and only when the reply carries
   an employee puts it into the cache and returns it. Every other outcome
   (an exception, a null body, null data, or an employee the cache cannot
   key because its id is null) returns null and leaves the cache as it was.
   */
  function CreateEmployee(st: Store, now: nat, create: Reply<Employee>): (c: Created)
    ensures c.employee.Some? <==> Payload(create).Some? && Payload(create).value.id.Some?
    ensures c.employee.Some? ==>
      && c.employee == Payload(create)
      && SameExcept(st, c.store, c.employee.value.id.value)
      && c.employee.value.id.value in c.store
      && c.store[c.employee.value.id.value] == Entry(c.employee.value, now)
      && Lookup(c.store, now, c.employee.value.id.value) == c.employee
    ensures c.employee.None? ==> c.store == st
  {
    match Payload(create)
    case None => Created(None, st)
    case Some(e) =>
      match PutEmployee(st, e, now)
      case Threw(_) => Created(None, st)
      case Returned(st') => Created(Some(e), st')
  }

  /** After a successful create, the new employee is served from memory until the time to live runs out. */
  lemma CreateThenHit(st: Store, now: nat, create: Reply<Employee>, t1: nat, fetch: Reply<Employee>)
    requires CreateEmployee(st, now, create).employee.Some?
    requires now <= t1 < now + TtlSeconds
    ensures var c := CreateEmployee(st, now, create);
            var s := GetEmployeeById(c.store, t1, c.employee.value.id.value, fetch);
            && !s.upstreamCalled
            && s.result == Returned(Response(c.employee, Some(Success)))
  {
    var c := CreateEmployee(st, now, create);
    var e := c.employee.value;
    assert PutEmployee(st, e, now).Returned?;
    assert Lookup(c.store, t1, e.id.value) == Some(e);
  }

  // ---------------------------------------------------------------- delete

  datatype Deleted = Deleted(
    result: Call<string>,
    store: Store,
    lookupCalledUpstream: bool,
    deleteRequest: Option<string>)   // the name sent to upstream delete, if it was called

  /** The employee the lookup at the start of a delete yields, if any. */
  function LookedUp(st: Store, now: nat, id: Uuid, fetch: Reply<Employee>): Option<Employee> {
    if IsLive(st, now, id) then Some(st[id].value) else Payload(fetch)
  }

  /** True iff an upstream delete reply carries exactly true. */
  predicate Confirmed(reply: Reply<bool>) {
    Payload(reply) == Some(true)
  }

  /** True iff an outcome is an exception other than not-found, which the delete sequence does not catch. */
  predicate Escapes<T>(c: Call<T>) {
    c.Threw? && c.fault != NotFound
  }

  /**
   deleteEmployeeById: looks the employee up through the cache, asks upstream
   to delete it by name only if the name is non-null and non-empty, and only
   when upstream answers exactly true evicts the requested id and returns the
   name. Every other outcome returns the failure string without evicting
   (the lookup may still have cached the employee); not-found is swallowed,
   other exceptions propagate.
   */
  function DeleteEmployeeById(st: Store, now: nat, id: Uuid, fetch: Reply<Employee>, delete: Reply<bool>)
    : (d: Deleted)
    ensures d.lookupCalledUpstream <==> !IsLive(st, now, id)
    ensures d.deleteRequest.Some? <==>
      LookedUp(st, now, id, fetch).Some? && IsUsableName(LookedUp(st, now, id, fetch).value.name)
    ensures d.deleteRequest.Some? ==> d.deleteRequest == LookedUp(st, now, id, fetch).value.name
    ensures SameExcept(st, d.store, id)
    ensures d.deleteRequest.Some? && Confirmed(delete) ==>
      d.result == Returned(d.deleteRequest.value) && id !in d.store
    ensures !(d.deleteRequest.Some? && Confirmed(delete)) ==>
      && (d.result == Returned(DeleteFailed) || d.result.Threw?)
      && Lookup(d.store, now, id) == LookedUp(st, now, id, fetch)
    ensures d.result.Threw? <==>
      || Escapes(GetEmployeeById(st, now, id, fetch).result)
      || (d.deleteRequest.Some? && Escapes(delete))
    ensures d.result.Threw? ==> d.result.fault != NotFound
    ensures var g := GetEmployeeById(st, now, id, fetch);
            d.result.Threw? ==> d.result.fault == if g.result.Threw? then g.result.fault else delete.fault
    ensures var g := GetEmployeeById(st, now, id, fetch);
            d.store == if d.deleteRequest.Some? && Confirmed(delete) then EvictEmployee(g.store, id) else g.store
  {
    var g := GetEmployeeById(st, now, id, fetch);
    var failed := Deleted(Returned(DeleteFailed), g.store, g.upstreamCalled, None);
    match g.result
    case Threw(NotFound) => failed
    case Threw(f) => Deleted(Threw(f), g.store, g.upstreamCalled, None)
    case Returned(resp) =>
      match resp.data
      case None => failed
      case Some(e) =>
        if !IsUsableName(e.name) then failed
        else
          var name := e.name.value;
          var attempted := failed.(deleteRequest := Some(name));
          match delete
          case Threw(NotFound) => attempted
          case Threw(f) => attempted.(result := Threw(f))
          case Returned(_) =>
            if Confirmed(delete) then attempted.(result := Returned(name), store := EvictEmployee(g.store, id))
            else attempted
  }

  /** After a successful delete, the next lookup of the id misses and goes upstream. */
  lemma DeleteThenMiss(st: Store, now: nat, id: Uuid, fetch: Reply<Employee>, delete: Reply<bool>,
                       t1: nat, fetch2: Reply<Employee>)
    requires DeleteEmployeeById(st, now, id, fetch, delete).deleteRequest.Some? && Confirmed(delete)
    ensures GetEmployeeById(DeleteEmployeeById(st, now, id, fetch, delete).store, t1, id, fetch2).upstreamCalled
  {
  }

  /**
   A delete that upstream refuses (its reply is not exactly true) reports
   the failure string, and the employee it looked up stays servable from
   memory.
   */
  lemma RefusedDeleteKeepsEntry(st: Store, now: nat, id: Uuid, fetch: Reply<Employee>, delete: Reply<bool>,
                                fetch2: Reply<Employee>)
    requires LookedUp(st, now, id, fetch).Some?
    requires IsUsableName(LookedUp(st, now, id, fetch).value.name)
    requires delete.Returned? && !Confirmed(delete)
    ensures var d := DeleteEmployeeById(st, now, id, fetch, delete);
            && d.result == Returned(DeleteFailed)
            && var s := GetEmployeeById(d.store, now, id, fetch2);
               && !s.upstreamCalled
               && s.result == Returned(Response(LookedUp(st, now, id, fetch), Some(Success)))
  {
  }
}
