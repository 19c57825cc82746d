/**
 Worked examples: the model applied, end to end, to the two employees the controller
 test builds (John Doe earning 100000, Jane Smith earning 120000).
 */
module Scenarios {
  import opened Types
  import opened Seqs
  import opened ExpiringStore
  import opened EmployeeCache
  import opened EmployeeService

  const IdJohn: Uuid := 1
  const IdJane: Uuid := 2

  const John := Employee(Some(IdJohn), Some("John Doe"), Some(100000), Some(30),
                         Some("Software Engineer"), Some("john.doe@example.com"))
  const Jane := Employee(Some(IdJane), Some("Jane Smith"), Some(120000), Some(35),
                         Some("Senior Engineer"), Some("jane.smith@example.com"))

  /** Upstream's bulk reply listing both employees. */
  const BothListed: Reply<seq<Employee>> := Returned(Some(Response(Some([John, Jane]), Some("success"))))

  /**
   On an empty cache, getAllEmployees fetches both employees and passes the
   reply on; afterwards lookups of either id within the time to live need no
   upstream call.
   */
  lemma BulkFetchThenHits(now: nat, t1: nat, fetch: Reply<Employee>)
    requires now <= t1 < now + TtlSeconds
    ensures var s := GetAllEmployees(InitCache(), now, BothListed);
            && s.upstreamCalled
            && s.result == Returned(Response(Some([John, Jane]), Some("success")))
            && GetEmployeeById(s.store, t1, IdJohn, fetch).result == Returned(Response(Some(John), Some(Success)))
            && !GetEmployeeById(s.store, t1, IdJohn, fetch).upstreamCalled
            && GetEmployeeById(s.store, t1, IdJane, fetch).result == Returned(Response(Some(Jane), Some(Success)))
            && !GetEmployeeById(s.store, t1, IdJane, fetch).upstreamCalled
  {
    var es := [John, Jane];
    assert IsLastWithId(es, 0) && IsLastWithId(es, 1);
    BulkPopulateServesHits(InitCache(), now, BothListed, 0, t1, fetch);
    BulkPopulateServesHits(InitCache(), now, BothListed, 1, t1, fetch);
  }

  /** The highest salary of the two is Jane's. */
  lemma HighestOfBoth()
    ensures HighestSalary(Some([John, Jane])) == 120000
  {
  }

  /** Both employees have a salary, so both enter the ranking. */
  lemma BothSalaried()
    ensures Filter([John, Jane], HasSalary) == [John, Jane]
  {
  }

  /** Sorting by descending salary puts Jane ahead of John. */
  lemma BothSorted()
    ensures SortBySalaryDesc([John, Jane]) == [Jane, John]
  {
  }

  /** Jane out-earns John, so she is ranked first. */
  lemma TopEarnersOfBoth()
    ensures TopEarners([John, Jane]) == [Jane, John]
  {
    BothSalaried();
    BothSorted();
  }

  /** Both names are usable, so none is dropped. */
  lemma BothNamesKept()
    ensures Filter(NamesOf([Jane, John]), IsUsableName) == [Some("Jane Smith"), Some("John Doe")]
  {
  }

  /** The top-ten names are Jane's, then John's. */
  lemma TopTenOfBoth()
    ensures TopTenNames([John, Jane]) == ["Jane Smith", "John Doe"]
  {
    TopEarnersOfBoth();
    BothNamesKept();
    assert Somes(["Jane Smith", "John Doe"]) == [Some("Jane Smith"), Some("John Doe")];
    TopTenNamesFromKept([John, Jane], ["Jane Smith", "John Doe"]);
  }

  /** A lookup of an id upstream does not know raises not-found, caches nothing, and the next lookup asks again. */
  lemma NotFoundIsNotCached(now: nat, later: nat, fetch: Reply<Employee>)
    requires now <= later
    ensures var s := GetEmployeeById(InitCache(), now, 3, Threw(NotFound));
            && s.result == Threw(NotFound)
            && s.store == InitCache()
            && GetEmployeeById(s.store, later, 3, fetch).upstreamCalled
  {
  }

  /**
   A delete of John that upstream answers with false reports the failure
   string and John stays servable from memory.
   */
  lemma RefusedDelete(now: nat, fetch: Reply<Employee>)
    ensures var st := Write(InitCache(), IdJohn, John, now);
            var d := DeleteEmployeeById(st, now, IdJohn, fetch, Returned(Some(Response(Some(false), None))));
            && d.result == Returned(DeleteFailed)
            && d.deleteRequest == Some("John Doe")
            && GetEmployeeById(d.store, now, IdJohn, fetch).result == Returned(Response(Some(John), Some(Success)))
  {
  }
}
