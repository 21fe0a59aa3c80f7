/** The order in which the services of a connection are tried. */
module ServiceOrder {
  import opened Wrappers

  /** A resolved service: its protocol scheme, whether it is a queue, and whether a recipient key is one for key
      agreement, which DIDComm v2 needs. */
  datatype Service = Service(id: string, scheme: string, queue: bool, v2: bool)

  /** The transport priority of the caller, if it gave one, and whether the connection uses DIDComm v2. */
  datatype Preference = Preference(schemes: Option<seq<string>>, restrictive: bool, v2: bool)

  function IndexOf(schemes: seq<string>, scheme: string): (i: nat)
    ensures i <= |schemes| && (i < |schemes| <==> scheme in schemes)
    ensures i < |schemes| ==> schemes[i] == scheme && scheme !in schemes[..i]
  {
    if schemes == [] then 0
    else if schemes[0] == scheme then 0
    else
      var i := 1 + IndexOf(schemes[1..], scheme);
      assert i < |schemes| ==> schemes[..i] == [schemes[0]] + schemes[1..][..i - 1];
      i
  }

  /** The place of a service's scheme among the preferred ones; one that is not among them comes after all. */
  function Priority(p: Preference, s: Service): nat {
    if p.schemes.None? then 0 else IndexOf(p.schemes.value, s.scheme)
  }

  /** What the services are ordered by: for v2 connections whether they can take v2, then their priority. */
  function Rank(p: Preference, s: Service): nat {
    Priority(p, s) + (if p.v2 && !s.v2 then 1 + |p.schemes.GetOr([])| else 0)
  }

  /** The caller prefers the scheme of a service: it is listed before any mention of the other's. */
  ghost predicate Preferred(p: Preference, a: Service, b: Service) {
    p.schemes.Some? && exists i :: 0 <= i < |p.schemes.value| && p.schemes.value[i] == a.scheme
                                   && forall j :: 0 <= j <= i ==> p.schemes.value[j] != b.scheme
  }

  lemma PriorityIsPreference(p: Preference, a: Service, b: Service)
    ensures Priority(p, a) < Priority(p, b) <==> Preferred(p, a, b)
  {
    if p.schemes.Some? {
      var schemes, i, j := p.schemes.value, Priority(p, a), Priority(p, b);
      if i < j {
        assert schemes[i] == a.scheme && forall k :: 0 <= k <= i ==> schemes[k] in schemes[..j];
      }
      if k :| 0 <= k < |schemes| && schemes[k] == a.scheme && forall l :: 0 <= l <= k ==> schemes[l] != b.scheme {
        assert forall l :: 0 <= l < i ==> schemes[l] in schemes[..i];
        assert i <= k < j;
      }
    }
  }

  /** A service comes strictly before another exactly when the connection needs v2 and only the first can take it, or they
      do not differ in that and the scheme of the first is preferred. */
  lemma RankIsLexicographic(p: Preference, a: Service, b: Service)
    ensures Rank(p, a) < Rank(p, b) <==>
            (p.v2 && a.v2 && !b.v2) || ((p.v2 ==> (a.v2 <==> b.v2)) && Preferred(p, a, b))
  {
    PriorityIsPreference(p, a, b);
  }

  /** Services that are tried are no queues and, for a restrictive preference, of a listed scheme; each as often as it is
      offered. */
  lemma {:induction false} AllowedExactlyWhen(p: Preference, services: seq<Service>, s: Service)
    ensures multiset(AllowedOf(p, services))[s] ==
      if !s.queue && (!p.restrictive || p.schemes == None || s.scheme in p.schemes.value) then multiset(services)[s] else 0
  {
    if services != [] {
      AllowedExactlyWhen(p, services[1..], s);
      assert services == [services[0]] + services[1..];
    }
  }

  predicate Allowed(p: Preference, s: Service) {
    !s.queue && (p.restrictive && p.schemes.Some? ==> s.scheme in p.schemes.value)
  }

  function AllowedOf(p: Preference, services: seq<Service>): seq<Service> {
    if services == [] then []
    else (if Allowed(p, services[0]) then [services[0]] else []) + AllowedOf(p, services[1..])
  }

  /** Inserts before the first service of no smaller priority. */
  function Insert(p: Preference, x: Service, services: seq<Service>): seq<Service> {
    if services == [] || Priority(p, x) <= Priority(p, services[0]) then [x] + services
    else [services[0]] + Insert(p, x, services[1..])
  }

  /** A stable sort by priority. */
  function Sort(p: Preference, services: seq<Service>): seq<Service> {
    if services == [] then [] else Insert(p, services[0], Sort(p, services[1..]))
  }

  function Keep(services: seq<Service>, v2: bool): seq<Service> {
    if services == [] then []
    else (if services[0].v2 == v2 then [services[0]] else []) + Keep(services[1..], v2)
  }

  function Ordered(p: Preference, services: seq<Service>): seq<Service> {
    var sorted := Sort(p, AllowedOf(p, services));
    if p.v2 && Keep(sorted, true) != [] then Keep(sorted, true) + Keep(sorted, false) else sorted
  }

  function QueueOf(services: seq<Service>): (q: Option<Service>)
    ensures q.None? <==> forall s :: s in services ==> !s.queue
    ensures q.Some? ==> q.value in services && q.value.queue
  {
    if services == [] then None
    else if services[0].queue then Some(services[0])
    else QueueOf(services[1..])
  }

  // ---- What a stable order is ----

  /** The services of one rank, in the order they stand in. */
  function Class(p: Preference, services: seq<Service>, r: nat): seq<Service> {
    if services == [] then []
    else (if Rank(p, services[0]) == r then [services[0]] else []) + Class(p, services[1..], r)
  }

  ghost predicate SortedByRank(p: Preference, services: seq<Service>) {
    forall i, j :: 0 <= i < j < |services| ==> Rank(p, services[i]) <= Rank(p, services[j])
  }

  ghost predicate SameClasses(p: Preference, a: seq<Service>, b: seq<Service>) {
    forall r: nat :: Class(p, a, r) == Class(p, b, r)
  }

  /** Sorted by rank, and services of one rank keep their order. */
  ghost predicate StablyOrdered(p: Preference, from: seq<Service>, to: seq<Service>) {
    SortedByRank(p, to) && SameClasses(p, from, to)
  }

  lemma {:induction false} ClassOfMember(p: Preference, services: seq<Service>, s: Service)
    ensures s in services <==> s in Class(p, services, Rank(p, s))
    ensures forall r: nat :: s in Class(p, services, r) ==> r == Rank(p, s)
  {
    if services != [] { ClassOfMember(p, services[1..], s); }
  }

  /** There is only one stable order, and it is a permutation. */
  lemma {:induction false} StableOrderIsUnique(p: Preference, a: seq<Service>, b: seq<Service>)
    requires SortedByRank(p, a) && SortedByRank(p, b) && SameClasses(p, a, b)
    ensures a == b
  {
    if a == [] {
      if b != [] { ClassOfMember(p, b, b[0]); }
    } else {
      ClassOfMember(p, a, a[0]);
      assert Class(p, b, Rank(p, a[0])) == Class(p, a, Rank(p, a[0]));
      ClassOfMember(p, b, a[0]);
      ClassOfMember(p, b, b[0]);
      assert Class(p, a, Rank(p, b[0])) == Class(p, b, Rank(p, b[0]));
      ClassOfMember(p, a, b[0]);
      assert Rank(p, a[0]) == Rank(p, b[0]);
      assert Class(p, a, Rank(p, a[0]))[0] == a[0] && Class(p, b, Rank(p, a[0]))[0] == b[0];
      forall r: nat ensures Class(p, a[1..], r) == Class(p, b[1..], r) {
        assert Class(p, a, r) == Class(p, b, r);
        assert Class(p, a[1..], r) == if Rank(p, a[0]) == r then Class(p, a, r)[1..] else Class(p, a, r);
        assert Class(p, b[1..], r) == if Rank(p, b[0]) == r then Class(p, b, r)[1..] else Class(p, b, r);
      }
      StableOrderIsUnique(p, a[1..], b[1..]);
    }
  }

  lemma {:induction false} ClassAppend(p: Preference, a: seq<Service>, b: seq<Service>, r: nat)
    ensures Class(p, a + b, r) == Class(p, a, r) + Class(p, b, r)
  {
    if a == [] {
      assert a + b == b;
    } else {
      assert (a + b)[1..] == a[1..] + b;
      ClassAppend(p, a[1..], b, r);
    }
  }

  ghost predicate SortedByPriority(p: Preference, services: seq<Service>) {
    forall i, j :: 0 <= i < j < |services| ==> Priority(p, services[i]) <= Priority(p, services[j])
  }

  lemma ConsIsSorted(p: Preference, x: Service, services: seq<Service>)
    requires SortedByPriority(p, services) && forall y :: y in services ==> Priority(p, x) <= Priority(p, y)
    ensures SortedByPriority(p, [x] + services)
  {
  }

  lemma FirstIsLeast(p: Preference, services: seq<Service>)
    requires SortedByPriority(p, services) && services != []
    ensures SortedByPriority(p, services[1..])
    ensures forall y :: y in services ==> Priority(p, services[0]) <= Priority(p, y)
  {
    forall y | y in services ensures Priority(p, services[0]) <= Priority(p, y) {
      var i :| 0 <= i < |services| && services[i] == y;
    }
  }

  lemma {:induction false} InsertMembers(p: Preference, x: Service, services: seq<Service>, y: Service)
    ensures y in Insert(p, x, services) <==> y == x || y in services
  {
    if services != [] && Priority(p, x) > Priority(p, services[0]) { InsertMembers(p, x, services[1..], y); }
  }

  lemma {:induction false} InsertSorts(p: Preference, x: Service, services: seq<Service>)
    requires SortedByPriority(p, services)
    ensures SortedByPriority(p, Insert(p, x, services))
  {
    if services != [] {
      FirstIsLeast(p, services);
      if Priority(p, x) <= Priority(p, services[0]) {
        ConsIsSorted(p, x, services);
      } else {
        InsertSorts(p, x, services[1..]);
        var rest := Insert(p, x, services[1..]);
        forall y | y in rest ensures Priority(p, services[0]) <= Priority(p, y) {
          InsertMembers(p, x, services[1..], y);
        }
        ConsIsSorted(p, services[0], rest);
      }
    }
  }

  lemma {:induction false} InsertPermutes(p: Preference, x: Service, services: seq<Service>)
    ensures multiset(Insert(p, x, services)) == multiset{x} + multiset(services)
  {
    if services != [] && Priority(p, x) > Priority(p, services[0]) {
      InsertPermutes(p, x, services[1..]);
      assert services == [services[0]] + services[1..];
    }
  }

  /** Inserting passes only services of smaller priority, so no class changes its order. */
  lemma {:induction false} InsertKeepsClasses(p: Preference, x: Service, services: seq<Service>, r: nat)
    ensures Class(p, Insert(p, x, services), r) == (if Rank(p, x) == r then [x] else []) + Class(p, services, r)
  {
    if services == [] || Priority(p, x) <= Priority(p, services[0]) {
      assert ([x] + services)[1..] == services;
    } else {
      InsertKeepsClasses(p, x, services[1..], r);
      var rest := Insert(p, x, services[1..]);
      assert ([services[0]] + rest)[1..] == rest;
      ClassRest(p, services, r);
      if Rank(p, x) == r && Rank(p, services[0]) == r { SamePriorityInRank(p, x, services[0]); }
    }
  }

  lemma SamePriorityInRank(p: Preference, a: Service, b: Service)
    requires Rank(p, a) == Rank(p, b)
    ensures Priority(p, a) == Priority(p, b)
  {
  }

  lemma ClassRest(p: Preference, services: seq<Service>, r: nat)
    requires services != []
    ensures Class(p, services, r) == (if Rank(p, services[0]) == r then [services[0]] else []) + Class(p, services[1..], r)
  {
  }

  lemma {:induction false} SortSorts(p: Preference, services: seq<Service>)
    ensures SortedByPriority(p, Sort(p, services))
  {
    if services != [] {
      SortSorts(p, services[1..]);
      InsertSorts(p, services[0], Sort(p, services[1..]));
    }
  }

  lemma {:induction false} SortPermutes(p: Preference, services: seq<Service>)
    ensures multiset(Sort(p, services)) == multiset(services)
  {
    if services != [] {
      SortPermutes(p, services[1..]);
      InsertPermutes(p, services[0], Sort(p, services[1..]));
      assert services == [services[0]] + services[1..];
    }
  }

  lemma {:induction false} SortIsStable(p: Preference, services: seq<Service>, r: nat)
    ensures Class(p, Sort(p, services), r) == Class(p, services, r)
  {
    if services != [] {
      SortIsStable(p, services[1..], r);
      InsertKeepsClasses(p, services[0], Sort(p, services[1..]), r);
      ClassRest(p, services, r);
    }
  }

  lemma {:induction false} KeepMembers(services: seq<Service>, v2: bool, s: Service)
    ensures s in Keep(services, v2) <==> s in services && s.v2 == v2
  {
    if services != [] { KeepMembers(services[1..], v2, s); }
  }

  lemma {:induction false} KeepSorts(p: Preference, services: seq<Service>, v2: bool)
    requires SortedByPriority(p, services)
    ensures SortedByPriority(p, Keep(services, v2))
  {
    if services != [] {
      FirstIsLeast(p, services);
      KeepSorts(p, services[1..], v2);
      var rest := Keep(services[1..], v2);
      forall y | y in rest ensures Priority(p, services[0]) <= Priority(p, y) { KeepMembers(services[1..], v2, y); }
      ConsIsSorted(p, services[0], rest);
      assert [] + rest == rest;
    }
  }

  lemma KeepIsSorted(p: Preference, services: seq<Service>, v2: bool)
    requires SortedByPriority(p, services)
    ensures SortedByPriority(p, Keep(services, v2))
    ensures forall s :: s in Keep(services, v2) <==> s in services && s.v2 == v2
  {
    KeepSorts(p, services, v2);
    forall s ensures s in Keep(services, v2) <==> s in services && s.v2 == v2 { KeepMembers(services, v2, s); }
  }

  lemma {:induction false} PartitionPermutes(services: seq<Service>)
    ensures multiset(Keep(services, true) + Keep(services, false)) == multiset(services)
  {
    if services != [] {
      PartitionPermutes(services[1..]);
      assert services == [services[0]] + services[1..];
    }
  }

  lemma {:induction false} KeepKeepsClasses(p: Preference, services: seq<Service>, v2: bool, r: nat)
    requires p.v2
    ensures Class(p, Keep(services, v2), r) ==
            if v2 == (r <= |p.schemes.GetOr([])|) then Class(p, services, r) else []
  {
    if services != [] {
      KeepKeepsClasses(p, services[1..], v2, r);
      ClassRest(p, services, r);
      RankTellsV2(p, services[0]);
      assert Keep(services, v2) == (if services[0].v2 == v2 then [services[0]] else []) + Keep(services[1..], v2);
      ClassAppend(p, if services[0].v2 == v2 then [services[0]] else [], Keep(services[1..], v2), r);
    }
  }

  lemma RankTellsV2(p: Preference, s: Service)
    requires p.v2
    ensures s.v2 <==> Rank(p, s) <= |p.schemes.GetOr([])|
  {
  }

  lemma PartitionKeepsClasses(p: Preference, services: seq<Service>, r: nat)
    requires p.v2
    ensures Class(p, Keep(services, true) + Keep(services, false), r) == Class(p, services, r)
  {
    KeepKeepsClasses(p, services, true, r);
    KeepKeepsClasses(p, services, false, r);
    ClassAppend(p, Keep(services, true), Keep(services, false), r);
  }

  /** The services that are tried are the allowed ones, stably ordered: those that can take v2 first on a v2
      connection, and by the caller's priority among them. */
  lemma OrderedIsTheStableOrder(p: Preference, services: seq<Service>)
    ensures StablyOrdered(p, AllowedOf(p, services), Ordered(p, services))
    ensures multiset(Ordered(p, services)) == multiset(AllowedOf(p, services))
  {
    var allowed := AllowedOf(p, services);
    var sorted := Sort(p, allowed);
    SortSorts(p, allowed);
    SortPermutes(p, allowed);
    KeepIsSorted(p, sorted, true);
    KeepIsSorted(p, sorted, false);
    forall r: nat ensures Class(p, allowed, r) == Class(p, Ordered(p, services), r) {
      SortIsStable(p, allowed, r);
      if p.v2 && Keep(sorted, true) != [] {
        PartitionKeepsClasses(p, sorted, r);
      }
    }
    PartitionPermutes(sorted);
    if p.v2 && Keep(sorted, true) != [] { SortedByPartition(p, sorted); } else { SortedWithoutPartition(p, sorted); }
  }

  lemma SortedWithoutPartition(p: Preference, sorted: seq<Service>)
    requires SortedByPriority(p, sorted) && (!p.v2 || Keep(sorted, true) == [])
    ensures SortedByRank(p, sorted)
  {
    KeepIsSorted(p, sorted, true);
    assert p.v2 ==> forall s :: s in sorted ==> !s.v2;
  }

  lemma OneKindIsSortedByRank(p: Preference, services: seq<Service>, v2: bool)
    requires SortedByPriority(p, services) && forall s :: s in services ==> s.v2 == v2
    ensures SortedByRank(p, services)
  {
  }

  lemma ConcatIsSorted(p: Preference, a: seq<Service>, b: seq<Service>)
    requires SortedByRank(p, a) && SortedByRank(p, b)
    requires forall i, j :: 0 <= i < |a| && 0 <= j < |b| ==> Rank(p, a[i]) <= Rank(p, b[j])
    ensures SortedByRank(p, a + b)
  {
  }

  lemma SortedByPartition(p: Preference, sorted: seq<Service>)
    requires SortedByPriority(p, sorted) && p.v2
    ensures SortedByRank(p, Keep(sorted, true) + Keep(sorted, false))
  {
    var a, b := Keep(sorted, true), Keep(sorted, false);
    KeepIsSorted(p, sorted, true);
    KeepIsSorted(p, sorted, false);
    OneKindIsSortedByRank(p, a, true);
    OneKindIsSortedByRank(p, b, false);
    forall i, j | 0 <= i < |a| && 0 <= j < |b| ensures Rank(p, a[i]) <= Rank(p, b[j]) {
      assert a[i] in a && b[j] in b;
    }
    ConcatIsSorted(p, a, b);
  }

  /** Any other stable order of the allowed services is the same. */
  lemma NoOtherOrder(p: Preference, services: seq<Service>, other: seq<Service>)
    requires StablyOrdered(p, AllowedOf(p, services), other)
    ensures other == Ordered(p, services)
  {
    OrderedIsTheStableOrder(p, services);
    forall r: nat ensures Class(p, other, r) == Class(p, Ordered(p, services), r) {
      assert Class(p, AllowedOf(p, services), r) == Class(p, other, r);
      assert Class(p, AllowedOf(p, services), r) == Class(p, Ordered(p, services), r);
    }
    StableOrderIsUnique(p, other, Ordered(p, services));
  }
}
