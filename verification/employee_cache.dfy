/**
 The cache-aside layer over the upstream employee service
 (EmployeeCacheService): reads are served from the expiring store when it
 has something observable and fall through to upstream otherwise, writing
 what upstream returns back into the store.

 Each operation takes the store, the current time and the reply upstream
 would give if asked, and returns the caller-visible outcome, the new store,
 and whether upstream was asked at all.
 */
module EmployeeCache {
  import opened Types
  import opened ExpiringStore

  /** The outcome of one cache operation. */
  datatype Step<T> = Step(result: Call<T>, store: Store, upstreamCalled: bool)

  /** The store a freshly initialised cache starts from. */
  function InitCache(): (st: Store)
    ensures forall now: nat :: LiveKeys(st, now) == {}
  {
    map[]
  }

  /** True iff some employee of es carries the id k. */
  predicate HasId(es: seq<Employee>, k: Uuid) {
    exists i :: 0 <= i < |es| && es[i].id == Some(k)
  }

  /** True iff no employee after position i carries the same id as es[i]. */
  predicate IsLastWithId(es: seq<Employee>, i: nat)
    requires i < |es|
  {
    forall j :: i < j < |es| ==> es[j].id != es[i].id
  }

  /**
   The relation between the store before and after a bulk population at time
   now: the last employee carrying each id is stored under it with a fresh
   write time, and every key no employee carries is untouched.
   */
  ghost predicate BulkWritten(st: Store, es: seq<Employee>, now: nat, st': Store) {
    && (forall i :: 0 <= i < |es| && es[i].id.Some? && IsLastWithId(es, i) ==>
          es[i].id.value in st' && st'[es[i].id.value] == Entry(es[i], now))
    && (forall k :: !HasId(es, k) ==> (k in st' <==> k in st) && (k in st ==> st'[k] == st[k]))
  }

  /** Puts every employee of es that has an id, in list order, skipping the others. */
  function PopulateAll(st: Store, es: seq<Employee>, now: nat): (st': Store)
    ensures BulkWritten(st, es, now, st')
    decreases |es|
  {
    if es == [] then st
    else
      var init := es[..|es| - 1];
      var last := es[|es| - 1];
      var before := PopulateAll(st, init, now);
      var after := if last.id.Some? then Write(before, last.id.value, last, now) else before;
      PopulateStep(st, es, now, before, after);
      after
  }

  /** Putting the last employee of es extends a bulk population of the others to one of all of es. */
  lemma PopulateStep(st: Store, es: seq<Employee>, now: nat, before: Store, after: Store)
    requires es != []
    requires BulkWritten(st, es[..|es| - 1], now, before)
    requires after == if es[|es| - 1].id.Some? then Write(before, es[|es| - 1].id.value, es[|es| - 1], now) else before
    ensures BulkWritten(st, es, now, after)
  {
    var init := es[..|es| - 1];
    var last := es[|es| - 1];
    assert forall i :: 0 <= i < |init| ==> init[i] == es[i];
    forall i | 0 <= i < |es| && es[i].id.Some? && IsLastWithId(es, i)
      ensures es[i].id.value in after && after[es[i].id.value] == Entry(es[i], now)
    {
      if i < |init| {
        assert IsLastWithId(init, i);
        assert last.id != es[i].id;
      }
    }
    forall k | !HasId(es, k)
      ensures (k in after <==> k in st) && (k in st ==> after[k] == st[k])
    {
      assert !HasId(init, k);
      assert last.id != Some(k);
    }
  }

  /**
   getAllEmployees: if anything is observable, every observable value is
   served from memory with status SUCCESS and upstream is not asked; if
   nothing is (never populated, or all expired), upstream's bulk reply is
   passed on and each employee in it that has an id is cached.
   */
  function GetAllEmployees(st: Store, now: nat, fetchAll: Reply<seq<Employee>>)
    : (s: Step<Response<seq<Employee>>>)
    ensures !s.upstreamCalled <==> LiveKeys(st, now) != {}
    ensures !s.upstreamCalled ==>
      && s.store == st
      && s.result.Returned?
      && s.result.value.status == Some(Success)
      && s.result.value.data.Some?
      && |s.result.value.data.value| == |LiveKeys(st, now)|
      && forall e :: multiset(s.result.value.data.value)[e] == LiveCount(st, now, e)
    ensures s.upstreamCalled ==> s.result == PassedOn(fetchAll)
    ensures s.upstreamCalled && Payload(fetchAll).Some? ==>
      BulkWritten(st, Payload(fetchAll).value, now, s.store)
    ensures s.upstreamCalled && Payload(fetchAll).None? ==> s.store == st
  {
    if LiveKeys(st, now) != {} then
      Step(Returned(Response(Some(LiveValues(st, now)), Some(Success))), st, false)
    else
      match fetchAll
      case Returned(Some(r)) =>
        var st' := if r.data.Some? then PopulateAll(st, r.data.value, now) else st;
        Step(Returned(r), st', true)
      case Returned(None) => Step(Threw(NullDereference), st, true)
      case Threw(f) => Step(Threw(f), st, true)
  }

  /**
   getEmployeeById: a live entry is served from memory with status SUCCESS
   and upstream is not asked; otherwise upstream's reply is passed on, and a
   non-null payload is cached under the requested id (not the payload's own
   id). A not-found, a null body or a null payload writes nothing.
   */
  function GetEmployeeById(st: Store, now: nat, id: Uuid, fetch: Reply<Employee>)
    : (s: Step<Response<Employee>>)
    ensures !s.upstreamCalled <==> IsLive(st, now, id)
    ensures !s.upstreamCalled ==>
      s.store == st && s.result == Returned(Response(Some(st[id].value), Some(Success)))
    ensures s.upstreamCalled ==> s.result == PassedOn(fetch)
    ensures SameExcept(st, s.store, id)
    ensures IsLive(s.store, now, id) <==> IsLive(st, now, id) || Payload(fetch).Some?
    ensures s.upstreamCalled && Payload(fetch).Some? ==>
      id in s.store && s.store[id] == Entry(Payload(fetch).value, now)
    ensures s.upstreamCalled && Payload(fetch).None? ==> s.store == st
  {
    if IsLive(st, now, id) then
      Step(Returned(Response(Some(st[id].value), Some(Success))), st, false)
    else
      match fetch
      case Returned(Some(r)) =>
        var st' := if r.data.Some? then Write(st, id, r.data.value, now) else st;
        Step(Returned(r), st', true)
      case Returned(None) => Step(Threw(NullDereference), st, true)
      case Threw(f) => Step(Threw(f), st, true)
  }

  /**
   putEmployee: stores e under its own id, replacing any previous value and
   restarting its time to live; all other keys are untouched. The store
   rejects a null key with NullPointerException.
   */
  function PutEmployee(st: Store, e: Employee, now: nat): (r: Call<Store>)
    ensures r.Threw? <==> e.id.None?
    ensures r.Threw? ==> r.fault == NullDereference
    ensures r.Returned? ==> SameExcept(st, r.value, e.id.value)
    ensures r.Returned? ==>
      forall t: nat :: now <= t < now + TtlSeconds ==> Lookup(r.value, t, e.id.value) == Some(e)
    ensures r.Returned? ==> Lookup(r.value, now + TtlSeconds, e.id.value) == None
  {
    match e.id
    case None => Threw(NullDereference)
    case Some(k) => Returned(Write(st, k, e, now))
  }

  /** evictEmployee: removes id; every other key is untouched; evicting an absent id changes nothing. */
  function EvictEmployee(st: Store, id: Uuid): (st': Store)
    ensures id !in st'
    ensures SameExcept(st, st', id)
    ensures id !in st ==> st' == st
  {
    st - {id}
  }

  /**
   Hit precedence: once a miss has cached an employee, every lookup of the
   same id within the time to live is served from memory, returns the same
   employee and leaves the store as it is.
   */
  lemma HitAfterMissWithinTtl(st: Store, t0: nat, id: Uuid, fetch: Reply<Employee>,
                              t1: nat, fetch2: Reply<Employee>)
    requires GetEmployeeById(st, t0, id, fetch).upstreamCalled
    requires Payload(fetch).Some?
    requires t0 <= t1 < t0 + TtlSeconds
    ensures var s1 := GetEmployeeById(st, t0, id, fetch);
            var s2 := GetEmployeeById(s1.store, t1, id, fetch2);
            && !s2.upstreamCalled
            && s2.store == s1.store
            && s2.result == Returned(Response(Payload(fetch), Some(Success)))
  {
  }

  /**
   No negative caching: a miss whose upstream reply carries no employee (a
   not-found, another failure, a null body or null data) writes nothing, so
   a later lookup of the same id asks upstream again.
   */
  lemma NoNegativeCaching(st: Store, t0: nat, id: Uuid, fetch: Reply<Employee>,
                          t1: nat, fetch2: Reply<Employee>)
    requires !IsLive(st, t0, id)
    requires Payload(fetch).None?
    requires t0 <= t1
    ensures var s1 := GetEmployeeById(st, t0, id, fetch);
            && s1.store == st
            && GetEmployeeById(s1.store, t1, id, fetch2).upstreamCalled
  {
  }

  /** An entry put at time t is no longer observable at t + 91 or later: the lookup goes upstream. */
  lemma {:induction false} ExpiredAfterTtl(st: Store, e: Employee, t: nat, t1: nat, fetch: Reply<Employee>)
    requires e.id.Some?
    requires t + TtlSeconds <= t1
    ensures PutEmployee(st, e, t).Returned?
    ensures GetEmployeeById(PutEmployee(st, e, t).value, t1, e.id.value, fetch).upstreamCalled
  {
    var st' := PutEmployee(st, e, t).value;
    assert st'[e.id.value].writtenAt == t;
  }

  /**
   Bulk populate: after getAllEmployees fetched a list from upstream, every
   employee in it with an id is served from memory until the time to live
   runs out, as the last employee in the list carrying that id.
   */
  lemma BulkPopulateServesHits(st: Store, t0: nat, fetchAll: Reply<seq<Employee>>,
                               i: nat, t1: nat, fetch: Reply<Employee>)
    requires LiveKeys(st, t0) == {}
    requires Payload(fetchAll).Some?
    requires i < |Payload(fetchAll).value|
    requires Payload(fetchAll).value[i].id.Some?
    requires IsLastWithId(Payload(fetchAll).value, i)
    requires t0 <= t1 < t0 + TtlSeconds
    ensures var es := Payload(fetchAll).value;
            var s := GetEmployeeById(GetAllEmployees(st, t0, fetchAll).store, t1, es[i].id.value, fetch);
            && !s.upstreamCalled
            && s.result == Returned(Response(Some(es[i]), Some(Success)))
  {
  }

  /**
   After a bulk fetch that cached at least one employee, the next
   getAllEmployees within the time to live is served from memory.
   */
  lemma {:induction false} BulkPopulateServesNextGetAll(st: Store, t0: nat, fetchAll: Reply<seq<Employee>>,
                                                        i: nat, t1: nat, fetchAll2: Reply<seq<Employee>>)
    requires LiveKeys(st, t0) == {}
    requires Payload(fetchAll).Some?
    requires i < |Payload(fetchAll).value|
    requires Payload(fetchAll).value[i].id.Some?
    requires t0 <= t1 < t0 + TtlSeconds
    ensures !GetAllEmployees(GetAllEmployees(st, t0, fetchAll).store, t1, fetchAll2).upstreamCalled
  {
    var es := Payload(fetchAll).value;
    var st' := GetAllEmployees(st, t0, fetchAll).store;
    var j := LastIndexWithId(es, i);
    assert IsLive(st', t1, es[j].id.value);
  }

  /** The position of the last employee in es carrying the same id as es[i]. */
  function LastIndexWithId(es: seq<Employee>, i: nat): (j: nat)
    requires i < |es|
    ensures i <= j < |es|
    ensures es[j].id == es[i].id
    ensures IsLastWithId(es, j)
    decreases |es| - i
  {
    if exists j :: i < j < |es| && es[j].id == es[i].id then
      var j :| i < j < |es| && es[j].id == es[i].id;
      LastIndexWithId(es, j)
    else i
  }

  /**
   The cached view of getAllEmployees can be a strict subset of upstream:
   after one getEmployeeById on an empty cache, getAllEmployees serves only
   that one employee, although upstream would list two.
   */
  lemma GetAllCanServeStrictSubset(a: Employee, b: Employee, now: nat)
    requires a.id.Some? && b.id.Some? && a.id != b.id
    ensures var s1 := GetEmployeeById(InitCache(), now, a.id.value, Returned(Some(Response(Some(a), None))));
            var s2 := GetAllEmployees(s1.store, now, Returned(Some(Response(Some([a, b]), None))));
            && !s2.upstreamCalled
            && s2.result == Returned(Response(Some([a]), Some(Success)))
  {
    var s1 := GetEmployeeById(InitCache(), now, a.id.value, Returned(Some(Response(Some(a), None))));
    assert LiveKeys(s1.store, now) == {a.id.value};
    var s2 := GetAllEmployees(s1.store, now, Returned(Some(Response(Some([a, b]), None))));
    var vs := s2.result.value.data.value;
    assert |vs| == 1;
    assert multiset(vs)[a] == LiveCount(s1.store, now, a);
    assert LiveKeysHolding(s1.store, now, a) == {a.id.value};
    assert multiset(vs)[a] == 1;
    assert vs == [vs[0]];
    assert vs[0] == a;
  }
}
