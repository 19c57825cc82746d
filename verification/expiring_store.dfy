/**
 The keyed, time-expiring store behind the employee cache: a map from UUID to
 the cached employee and the time of its last write, read against an explicit
 clock. An entry is observable only while the clock is less than its write
 time plus the time to live; an expired entry may still be physically present
 but is never returned.
 */
module ExpiringStore {
  import opened Types

  /** Entries expire this many seconds after their last write. */
  const TtlSeconds: nat := 91

  datatype Entry = Entry(value: Employee, writtenAt: nat)

  type Store = map<Uuid, Entry>

  /** True iff the entry under k exists and has not yet expired at time now. */
  predicate IsLive(st: Store, now: nat, k: Uuid) {
    k in st && now < st[k].writtenAt + TtlSeconds
  }

  /** What a read of k at time now observes. */
  function Lookup(st: Store, now: nat, k: Uuid): Option<Employee> {
    if IsLive(st, now, k) then Some(st[k].value) else None
  }

  /** Inserts or replaces the entry under k, stamping it with the current time. */
  function Write(st: Store, k: Uuid, e: Employee, now: nat): Store {
    st[k := Entry(e, now)]
  }

  /** The keys observable at time now. */
  function LiveKeys(st: Store, now: nat): (ks: set<Uuid>)
    ensures forall k :: k in ks <==> IsLive(st, now, k)
  {
    set k | k in st && IsLive(st, now, k)
  }

  /** The number of live entries whose value is e: its multiplicity among the observable values. */
  ghost function LiveCount(st: Store, now: nat, e: Employee): nat {
    |LiveKeysHolding(st, now, e)|
  }

  /** The live keys whose value is e. */
  ghost function LiveKeysHolding(st: Store, now: nat, e: Employee): set<Uuid> {
    set k | k in st && IsLive(st, now, k) && st[k].value == e
  }

  /** True iff st and st' agree on every key other than k, both physically and in write time. */
  ghost predicate SameExcept(st: Store, st': Store, k: Uuid) {
    forall j :: j != k ==> (j in st' <==> j in st) && (j in st ==> st'[j] == st[j])
  }

  /** True iff m is a member of s no greater than any other member. */
  predicate IsLeast(m: Uuid, s: set<Uuid>) {
    m in s && forall k :: k in s ==> m <= k
  }

  lemma {:induction false} LeastExists(s: set<Uuid>)
    requires s != {}
    ensures exists m :: IsLeast(m, s)
  {
    var x :| x in s;
    if s == {x} {
      assert IsLeast(x, s);
    } else {
      var rest := s - {x};
      LeastExists(rest);
      var m :| IsLeast(m, rest);
      var least := if x < m then x else m;
      forall k | k in s ensures least <= k {
        if k != x {
          assert k in rest;
        }
      }
      assert IsLeast(least, s);
    }
  }

  /** The least key of a non-empty set. */
  function MinOf(s: set<Uuid>): (m: Uuid)
    requires s != {}
    ensures IsLeast(m, s)
  {
    LeastExists(s);
    var m :| IsLeast(m, s);
    m
  }

  /**
   The keys of s in ascending order. The cache's map view iterates in an
   unspecified order; this model fixes one.
   */
  function Ascending(s: set<Uuid>): (r: seq<Uuid>)
    ensures |r| == |s|
    ensures forall k :: k in r <==> k in s
    ensures forall i, j :: 0 <= i < j < |r| ==> r[i] < r[j]
    decreases |s|
  {
    if s == {} then []
    else
      var m := MinOf(s);
      var tail := Ascending(s - {m});
      LeastThenAscending(s, m, tail);
      [m] + tail
  }

  /** Putting the least key in front of the ascending rest lists all of s in ascending order. */
  lemma LeastThenAscending(s: set<Uuid>, m: Uuid, tail: seq<Uuid>)
    requires IsLeast(m, s)
    requires |tail| == |s - {m}|
    requires forall k :: k in tail <==> k in s - {m}
    requires forall i, j :: 0 <= i < j < |tail| ==> tail[i] < tail[j]
    ensures |[m] + tail| == |s|
    ensures forall k :: k in [m] + tail <==> k in s
    ensures forall i, j :: 0 <= i < j < |[m] + tail| ==> ([m] + tail)[i] < ([m] + tail)[j]
  {
    var r := [m] + tail;
    forall i | 0 <= i < |tail| ensures m < tail[i] {
      assert tail[i] in s - {m};
    }
    forall i, j | 0 <= i < j < |r| ensures r[i] < r[j] {
      assert r[j] == tail[j - 1];
      if i > 0 {
        assert r[i] == tail[i - 1];
      }
    }
  }

  /** The values stored under ks, in the order of ks. */
  function ValuesAt(st: Store, ks: seq<Uuid>): (vs: seq<Employee>)
    requires forall k :: k in ks ==> k in st
    ensures |vs| == |ks|
    ensures forall i :: 0 <= i < |ks| ==> vs[i] == st[ks[i]].value
  {
    if ks == [] then [] else [st[ks[0]].value] + ValuesAt(st, ks[1..])
  }

  /** The keys among ks whose value is e. */
  ghost function KeysHolding(st: Store, ks: seq<Uuid>, e: Employee): set<Uuid>
    requires forall k :: k in ks ==> k in st
  {
    set k | k in ks && st[k].value == e
  }

  /** Splitting off the first of a list of distinct keys splits off at most one key holding e. */
  lemma KeysHoldingCons(st: Store, ks: seq<Uuid>, e: Employee)
    requires forall k :: k in ks ==> k in st
    requires ks != [] && ks[0] !in ks[1..]
    ensures |KeysHolding(st, ks, e)|
         == |KeysHolding(st, ks[1..], e)| + (if st[ks[0]].value == e then 1 else 0)
  {
    var tail := KeysHolding(st, ks[1..], e);
    assert forall k :: k in ks <==> k == ks[0] || k in ks[1..] by {
      assert ks == [ks[0]] + ks[1..];
    }
    if st[ks[0]].value == e {
      assert KeysHolding(st, ks, e) == tail + {ks[0]};
    } else {
      assert KeysHolding(st, ks, e) == tail;
    }
  }

  /** Reading the values under distinct keys yields each value once per key holding it. */
  lemma {:induction false} ValuesAtCount(st: Store, ks: seq<Uuid>, e: Employee)
    requires forall k :: k in ks ==> k in st
    requires forall i, j :: 0 <= i < j < |ks| ==> ks[i] != ks[j]
    ensures multiset(ValuesAt(st, ks))[e] == |KeysHolding(st, ks, e)|
  {
    if ks == [] {
      assert KeysHolding(st, ks, e) == {};
    } else {
      var rest := ks[1..];
      assert forall i :: 0 <= i < |rest| ==> rest[i] == ks[i + 1];
      assert ks[0] !in rest;
      ValuesAtCount(st, rest, e);
      KeysHoldingCons(st, ks, e);
      assert ValuesAt(st, ks) == [st[ks[0]].value] + ValuesAt(st, rest);
    }
  }

  /** Reading the live keys in any duplicate-free order yields each value once per live key holding it. */
  lemma LiveOrderCount(st: Store, now: nat, ks: seq<Uuid>, e: Employee)
    requires forall k :: k in ks <==> IsLive(st, now, k)
    requires forall i, j :: 0 <= i < j < |ks| ==> ks[i] != ks[j]
    ensures forall k :: k in ks ==> k in st
    ensures multiset(ValuesAt(st, ks))[e] == LiveCount(st, now, e)
  {
    ValuesAtCount(st, ks, e);
    assert KeysHolding(st, ks, e) == LiveKeysHolding(st, now, e);
  }

  /**
   The observable values of the store: exactly one occurrence per live key,
   so every employee appears as often as there are live keys holding it.
   */
  function LiveValues(st: Store, now: nat): (vs: seq<Employee>)
    ensures |vs| == |LiveKeys(st, now)|
    ensures forall e :: multiset(vs)[e] == LiveCount(st, now, e)
  {
    var ks := Ascending(LiveKeys(st, now));
    forall e ensures multiset(ValuesAt(st, ks))[e] == LiveCount(st, now, e) {
      LiveOrderCount(st, now, ks, e);
    }
    ValuesAt(st, ks)
  }
}
