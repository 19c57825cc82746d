# Employee cache and employee service — a verified functional model

This project models the core of an employee API that sits in front of an
upstream employee service reachable only over HTTP. It has two parts:

- **The cache** (`EmployeeCacheService`). This is a cache-aside layer over a
  keyed store that maps a UUID to an employee. Entries expire 91 seconds
  after their last write. `getAllEmployees` serves every observable value
  from memory when there is one. Otherwise it makes one bulk upstream fetch
  and caches each employee that has an id. `getEmployeeById` serves a live
  entry from memory. On a miss it fetches upstream and caches a non-null
  result under the requested id. `putEmployee` and `evictEmployee` keep the
  store consistent after a create or a delete.
- **The service** (`EmployeeService`). It computes three queries over the
  list the cache serves: a case-sensitive substring search on names, the
  highest salary, and the names of the ten best-paid employees. It also
  sequences create and delete. A create puts the new employee into the
  cache only when upstream's reply carries one. A delete evicts only when
  upstream answers exactly `true`. Every other delete outcome becomes the
  string `"Failed to delete employee."`.

Everything is a pure function over immutable values:

- The store is a `map<Uuid, Entry>`, where an entry holds the employee and
  the time of its last write.
- Time is an explicit `nat` clock in seconds.
- An entry is live while `now < writtenAt + 91`.
- Upstream is not called. Each operation instead receives the reply
  upstream would give (`Reply<T>`): an envelope, a null body, or an
  exception.
- Each cache operation returns a `Step`: the caller-visible outcome, the new
  store, and whether upstream was asked.
- Java exceptions are outcomes (`Call<T>`): `NotFound` for
  `EmployeeNotFoundException`, `UpstreamError` for any other client failure,
  and `NullDereference` for `NullPointerException`.

Files:

- `types.dfy`: the employee record, the response envelope and call outcomes.
- `expiring_store.dfy`: the time-expiring store.
- `employee_cache.dfy`: the cache operations and the properties that relate
  several calls.
- `seqs.dfy`: order-preserving filtering.
- `employee_service.dfy`: the queries, create and delete.
- `scenarios.dfy`: worked examples on the controller test's two employees.

Modelling decisions:

- **Null bodies.** The cache reads `getData()` from the upstream body before
  returning it (`EmployeeCacheService.java` lines 67 and 101). A null body
  therefore raises `NullPointerException` in the model too. As a result, the
  cache never hands the service a null response.
- **Iteration order.** `asMap().values()` iterates in an unspecified order.
  The model lists the live keys in ascending order. The contracts promise
  only what the source promises: each employee appears once per live key
  that holds it.
- **Null ids on put.** Cache2k rejects a null key with `NullPointerException`.
  So `PutEmployee` with a null id raises. Inside `createEmployee` that
  exception is caught by `catch (Exception e)`, so the create returns null
  and the cache is left as it was.
- **Sort order.** `Stream.sorted` is stable. The model's insertion sort
  places each employee ahead of later employees with an equal salary, so
  ties keep their input order.
- **Exceptions in delete.** `deleteEmployeeById` catches only
  `EmployeeNotFoundException` (`EmployeeService.java` line 182), which
  becomes the failure string. Every other exception from the lookup or from
  the upstream delete propagates to the caller. `DeleteEmployeeById`
  models exactly that.

## Model

| member | source | states |
|---|---|---|
| EmployeeCache.InitCache | api/src/main/java/com/reliaquest/api/service/EmployeeCacheService.java:33-40 | a freshly built cache has no observable entry at any time |
| ExpiringStore.LiveValues | api/src/main/java/com/reliaquest/api/service/EmployeeCacheService.java:53-55 | the values served from the store: one per live key, so each employee occurs exactly as often as live keys hold it; expired entries never appear |
| EmployeeCache.PopulateAll | api/src/main/java/com/reliaquest/api/service/EmployeeCacheService.java:67-74 | after a bulk population each id in the list maps to the last employee carrying it, with a fresh write time; employees with a null id are skipped; keys no employee carries are untouched |
| EmployeeCache.GetAllEmployees | api/src/main/java/com/reliaquest/api/service/EmployeeCacheService.java:51-77 | upstream is asked iff nothing is live (never populated or all expired); a hit serves exactly the multiset of live values with status SUCCESS and leaves the store as it was; a miss passes upstream's reply on verbatim, caches the list as a bulk population, and writes nothing for a failure, a null body or a null list |
| EmployeeCache.GetEmployeeById | api/src/main/java/com/reliaquest/api/service/EmployeeCacheService.java:89-106 | upstream is asked iff the id is not live; a hit returns the cached employee with status SUCCESS and leaves the store as it was; a miss passes the reply on verbatim and caches a non-null payload under the requested id; no other key changes; afterwards the id is live iff it was live before or upstream delivered an employee |
| EmployeeCache.PutEmployee | api/src/main/java/com/reliaquest/api/service/EmployeeCacheService.java:117-120 | stores the employee under its own id, replacing any previous value; the entry can be read for exactly the next 91 seconds and then expires; other keys are untouched; a null id raises NullPointerException |
| EmployeeCache.EvictEmployee | api/src/main/java/com/reliaquest/api/service/EmployeeCacheService.java:130-133 | the id is absent afterwards; every other key is untouched; evicting an absent id changes nothing |
| EmployeeCache.HitAfterMissWithinTtl | api/src/main/java/com/reliaquest/api/service/EmployeeCacheService.java:89-105 | once a miss has cached an employee, every lookup of that id within 91 seconds is served from memory, returns the same employee and leaves the store as it was |
| EmployeeCache.NoNegativeCaching | api/src/main/java/com/reliaquest/api/service/EmployeeCacheService.java:99-105 | a miss whose reply carries no employee (not-found, another failure, a null body or null data) writes nothing, and a later lookup of the id asks upstream again |
| EmployeeCache.ExpiredAfterTtl | api/src/main/java/com/reliaquest/api/service/EmployeeCacheService.java:36-38 | an entry put at time t is not observable at t + 91 or later, so the lookup goes upstream |
| EmployeeCache.BulkPopulateServesHits | api/src/main/java/com/reliaquest/api/service/EmployeeCacheService.java:63-76 | after a bulk fetch, each employee in the list that has an id (the last one carrying that id) is served from memory, with no upstream call, for the next 91 seconds |
| EmployeeCache.BulkPopulateServesNextGetAll | api/src/main/java/com/reliaquest/api/service/EmployeeCacheService.java:53-74 | after a bulk fetch that cached at least one employee, the next getAllEmployees within 91 seconds does not ask upstream |
| EmployeeCache.GetAllCanServeStrictSubset | api/src/main/java/com/reliaquest/api/service/EmployeeCacheService.java:53-61 | after one lookup on an empty cache, getAllEmployees serves only that employee, although upstream would list two |
| Seqs.Filter | api/src/main/java/com/reliaquest/api/service/EmployeeService.java:60-63 | a stream filter keeps exactly the elements satisfying the predicate, each as often as it occurs, in their original order |
| EmployeeService.ContainsIffOccurs | api/src/main/java/com/reliaquest/api/service/EmployeeService.java:62 | the recursive String.contains agrees with "some slice of the name equals the search string" |
| EmployeeService.GetEmployeesByNameSearch | api/src/main/java/com/reliaquest/api/service/EmployeeService.java:53-63 | exceptions from the cache propagate; a null list gives no employees; otherwise the result is the employees, in order, with a non-null name containing the search string; on a cache hit each matching employee occurs as often as live entries hold it |
| EmployeeService.MaxSalary | api/src/main/java/com/reliaquest/api/service/EmployeeService.java:95-98 | there is no maximum iff no employee has a salary; otherwise the maximum is some employee's salary and no salary exceeds it |
| EmployeeService.HighestSalary | api/src/main/java/com/reliaquest/api/service/EmployeeService.java:88-100 | 0 for a null or empty list or one without salaries; otherwise a salary some employee has that no salary exceeds |
| EmployeeService.GetHighestSalaryOfEmployees | api/src/main/java/com/reliaquest/api/service/EmployeeService.java:88-100 | exceptions from the cache propagate; on a cache hit the answer is a salary held by a live entry that no live salary exceeds, or 0 when no live entry has a salary |
| EmployeeService.HighestSalaryOnHit | api/src/main/java/com/reliaquest/api/service/EmployeeService.java:95-99 | the highest salary of the served values equals the highest salary among the live entries |
| EmployeeService.InsertBySalary | api/src/main/java/com/reliaquest/api/service/EmployeeService.java:120 | inserting into a list sorted by descending salary keeps it sorted and adds exactly the one employee |
| EmployeeService.SortBySalaryDesc | api/src/main/java/com/reliaquest/api/service/EmployeeService.java:120 | the sort yields a permutation of its input in non-increasing salary order |
| EmployeeService.TopEarners | api/src/main/java/com/reliaquest/api/service/EmployeeService.java:118-121 | the cut keeps min(10, number of salaried employees) employees, all salaried, drawn from the input, in non-increasing salary order; every salaried employee who earns more than a kept one is kept, as many times as the input holds them |
| EmployeeService.TopTenNames | api/src/main/java/com/reliaquest/api/service/EmployeeService.java:118-124 | at most ten names, none empty, one for each top earner whose name is non-null and non-empty, in the top earners' order |
| EmployeeService.NamesDroppedAfterLimit | api/src/main/java/com/reliaquest/api/service/EmployeeService.java:121-123 | null and empty names are dropped after the cut to ten: with ten or more salaried employees, one unusable name among the ten means fewer than ten names come back |
| EmployeeService.GetTopTenHighestEarningEmployeeNames | api/src/main/java/com/reliaquest/api/service/EmployeeService.java:111-125 | exceptions from the cache propagate; a null list gives no names; otherwise exactly the top-ten names of the served list (TopTenNames): the non-empty names of its top earners, in their non-increasing salary order, at most ten |
| EmployeeService.CreateEmployee | api/src/main/java/com/reliaquest/api/service/EmployeeService.java:137-151 | returns an employee iff upstream's reply carries one with an id; then that employee is stored under its id with a fresh write time, so it is observable for the next 91 seconds, and no other key changes; every other outcome, exceptions included, returns null and leaves the cache as it was |
| EmployeeService.CreateThenHit | api/src/main/java/com/reliaquest/api/service/EmployeeService.java:140-142 | after a successful create, lookups of the new id within 91 seconds are served from memory with the created employee |
| EmployeeService.DeleteEmployeeById | api/src/main/java/com/reliaquest/api/service/EmployeeService.java:163-185 | upstream delete is called, with the employee's name, iff the lookup yields an employee with a non-empty name; it succeeds, returning the name and evicting the requested id, iff in addition upstream answers exactly true; otherwise the result is the failure string or an exception, and the id holds whatever the lookup yielded; an exception other than not-found propagates unchanged (the lookup's, else the upstream delete's); the store is the lookup's store, with the id evicted exactly on success |
| EmployeeService.DeleteThenMiss | api/src/main/java/com/reliaquest/api/service/EmployeeService.java:176-178 | after a delete that upstream confirmed with exactly true, the next lookup of the id misses and asks upstream, whatever name the employee has |
| EmployeeService.RefusedDeleteKeepsEntry | api/src/main/java/com/reliaquest/api/service/EmployeeService.java:165-184 | when upstream does not answer exactly true, the delete reports the failure string and the looked-up employee stays servable from memory |
| Scenarios.BulkFetchThenHits | api/src/main/java/com/reliaquest/api/service/EmployeeCacheService.java:63-76 | with two employees upstream, getAllEmployees on an empty cache returns upstream's reply, and both ids are then cache hits |
| Scenarios.HighestOfBoth | api/src/main/java/com/reliaquest/api/service/EmployeeService.java:88-100 | of salaries 100000 and 120000 the highest is 120000 |
| Scenarios.TopTenOfBoth | api/src/main/java/com/reliaquest/api/service/EmployeeService.java:111-125 | the top-ten names of John Doe (100000) and Jane Smith (120000) are Jane Smith, then John Doe |
| Scenarios.NotFoundIsNotCached | api/src/main/java/com/reliaquest/api/service/EmployeeRestClient.java:47-57 | a 404 raises not-found, which reaches the caller; nothing is cached, and the next lookup asks upstream again |
| Scenarios.RefusedDelete | api/src/main/java/com/reliaquest/api/service/EmployeeService.java:176-184 | a delete answered with false reports the failure string and the employee stays cached |

## Left out

- Concurrency: the store's thread safety is not modelled. Nor is the benign race where two `getAllEmployees` calls both see an empty store and both populate it. Operations run one at a time against an explicit clock.
- Cache2k internals: its default capacity bound (and eviction when it is exceeded) and the timer lag of its expiry. Expiry is modelled as the exact boundary `now < writtenAt + 91` on a whole-second clock.
- The HTTP client (`EmployeeRestClient.java`): each of its calls becomes a reply passed in as a parameter. Its one behaviour the model keeps is that a 404 on fetch-by-id raises not-found.
- `EmployeeController.java`, `EmployeeControllerAdvice.java`, `RestClientConfig.java` and `EmployeeCreationException.java`: route wiring, UUID parsing, exception-to-status mapping, configuration and a trivial exception type.
- The service's `getAllEmployees` and `getEmployeeById` (`EmployeeService.java` lines 39-41 and 76-78) only delegate to the cache. The cache functions stand for them.
- The service's `employees == null` checks: the cache never returns a null response (a null upstream body raises first), so the model's types leave that case out.
- Null elements inside an upstream list: Java would raise `NullPointerException` on them. The model's lists hold only employees.
- Logging.
- Java `Error`s (as opposed to `Exception`s) are not modelled. `createEmployee` catches only `Exception`, and the model's faults are all exceptions.
- The model of the create and delete requests sent upstream: only the name sent to delete is recorded (`Deleted.deleteRequest`). The create input is not modelled, since the reply is a parameter.
- SortBySalaryDesc: stability (ties keep their input order) holds by construction but is not stated as a contract.
- TopTenNames: the names are stated to follow the top earners' order, and the top earners are stated to be in non-increasing salary order. The pairing of each name with its salary is not restated on the names themselves.
- GetTopTenHighestEarningEmployeeNames: on a cache hit, the result is not restated in terms of live entries. Its contract states it equals TopTenNames of the served list, and GetAllEmployees states that list's contents.
- TopEarners: among employees with equal salaries, the contract states neither which ones survive the cut to ten nor their order within the ten. The source keeps the earliest in the list, in input order, because `Stream.sorted` is stable, and the model's sort does the same by construction.
