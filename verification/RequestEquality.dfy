/** Comparing two proof requests: the relation between two groups and what it makes of whole requests. */
module RequestEquality {
  import opened Wrappers
  import opened RevocationRegistry
  import opened GreedyMatching

  type Restriction = map<string, string>
  type Restrictions = Option<seq<Restriction>>

  datatype AttributeGroup = AttributeGroup(
    name: Option<string>, names: Option<seq<string>>, nonRevoked: Option<Interval>, restrictions: Restrictions)

  datatype PredicateGroup = PredicateGroup(
    name: string, pType: string, pValue: int, nonRevoked: Option<Interval>, restrictions: Restrictions)

  datatype ProofRequest = ProofRequest(
    nonRevoked: Option<Interval>, attributes: seq<AttributeGroup>, predicates: seq<PredicateGroup>)

  // ---- The parts of a group ----

  predicate AreObjectsEqual(a: Restriction, b: Restriction) {
    && |a.Keys| == |b.Keys|
    && (forall key :: key in a ==> key in b && a[key] == b[key])
    && (forall key :: key in b ==> key in a && b[key] == a[key])
  }

  lemma ObjectsAreComparedByValue(a: Restriction, b: Restriction)
    ensures AreObjectsEqual(a, b) <==> a == b
  {
    if AreObjectsEqual(a, b) {
      assert a.Keys == b.Keys;
    }
  }

  predicate NoDuplicates<T(==)>(s: seq<T>) {
    forall i, j :: 0 <= i < j < |s| ==> s[i] != s[j]
  }

  predicate AreNamesEqual(a: Option<seq<string>>, b: Option<seq<string>>) {
    if a.None? then b.None? || |b.value| == 0
    else if b.None? then |a.value| == 0
    else NoDuplicates(a.value) && NoDuplicates(b.value) && |a.value| == |b.value|
         && forall i :: 0 <= i < |a.value| ==> a.value[i] in b.value
  }

  predicate IsNonRevokedEqual(a: Option<Interval>, b: Option<Interval>) {
    a.GetOr(Interval(None, None)) == b.GetOr(Interval(None, None))
  }

  function Elements<T>(s: seq<T>): set<T> {
    set x | x in s
  }

  lemma ElementsOfTail<T>(s: seq<T>)
    requires s != []
    ensures Elements(s) == Elements(s[1..]) + {s[0]}
    ensures NoDuplicates(s) <==> s[0] !in s[1..] && NoDuplicates(s[1..])
  {
    var tail := s[1..];
    assert s == [s[0]] + tail;
    assert forall j :: 0 < j < |s| ==> s[j] == tail[j - 1];
    assert forall i :: 0 <= i < |tail| ==> tail[i] == s[i + 1];
  }

  lemma {:induction false} DistinctHaveFullSet<T>(s: seq<T>)
    ensures |Elements(s)| <= |s|
    ensures NoDuplicates(s) <==> |Elements(s)| == |s|
  {
    if s != [] {
      ElementsOfTail(s);
      DistinctHaveFullSet(s[1..]);
      if s[0] in s[1..] {
        assert Elements(s) == Elements(s[1..]);
      } else {
        assert |Elements(s)| == |Elements(s[1..])| + 1;
      }
    }
  }

  // Names, as the set they are compared by.
  function NameSet(names: Option<seq<string>>): set<string> {
    Elements(names.GetOr([]))
  }

  lemma NamesAreComparedAsSets(a: Option<seq<string>>, b: Option<seq<string>>)
    ensures AreNamesEqual(a, b) <==>
      NoDuplicates(a.GetOr([])) && NoDuplicates(b.GetOr([])) && NameSet(a) == NameSet(b)
  {
    var s, t := a.GetOr([]), b.GetOr([]);
    DistinctHaveFullSet(s);
    DistinctHaveFullSet(t);
    if NoDuplicates(s) && NoDuplicates(t) && NameSet(a) == NameSet(b) {
      forall i | 0 <= i < |s| ensures s[i] in t {
        assert s[i] in NameSet(a);
      }
    }
    if a.Some? && b.Some? {
      if AreNamesEqual(a, b) {
        SubsetOfSameSize(NameSet(a), NameSet(b));
      }
    } else if a.None? && b.Some? {
      if |t| > 0 { assert t[0] in NameSet(b); }
    } else if b.None? && a.Some? {
      if |s| > 0 { assert s[0] in NameSet(a); }
    }
  }

  lemma SubsetOfSameSize<T>(s: set<T>, t: set<T>)
    requires s <= t && |s| == |t|
    ensures s == t
  {
    assert |t - s| == 0;
  }

  // ---- Restriction lists ----

  /** As coded: every restriction of the first list is somewhere in the second. */
  predicate RestrictionsIncluded(a: Restrictions, b: Restrictions) {
    if a.None? then b.None? || |b.value| == 0
    else if b.None? then |a.value| == 0
    else forall i :: 0 <= i < |a.value| ==> a.value[i] in b.value
  }

  /** As documented: the same restrictions, the order does not matter, and none is the same as an empty list. */
  predicate RestrictionsEqual(a: Restrictions, b: Restrictions) {
    multiset(a.GetOr([])) == multiset(b.GetOr([]))
  }

  /** The list that restrictions are removed from is not the list that is searched. */
  method AreRestrictionsEqual(a: Restrictions, b: Restrictions) returns (equal: bool)
    ensures equal <==> RestrictionsIncluded(a, b)
  {
    if a.None? { return b.None? || |b.value| == 0; }
    if b.None? { return |a.value| == 0; }
    var bList := b.value;
    for i := 0 to |a.value|
      invariant forall k :: 0 <= k < i ==> a.value[k] in b.value
    {
      var k := 0;
      while k < |b.value| && !AreObjectsEqual(a.value[i], b.value[k])
        invariant 0 <= k <= |b.value|
        invariant forall j :: 0 <= j < k ==> a.value[i] != b.value[j]
      {
        ObjectsAreComparedByValue(a.value[i], b.value[k]);
        k := k + 1;
      }
      if k == |b.value| {
        assert a.value[i] !in b.value;
        return false;
      }
      ObjectsAreComparedByValue(a.value[i], b.value[k]);
      if k < |bList| { bList := bList[..k] + bList[k + 1..]; }
    }
    return true;
  }

  lemma IncludedInShorterIsOfSameLength(a: seq<Restriction>, b: seq<Restriction>)
    requires NoDuplicates(a) && |b| <= |a| && forall i :: 0 <= i < |a| ==> a[i] in b
    ensures |a| == |b| && Elements(a) == Elements(b) && NoDuplicates(b)
  {
    DistinctHaveFullSet(a);
    DistinctHaveFullSet(b);
    assert Elements(a) <= Elements(b);
    SubsetIsNotLarger(Elements(a), Elements(b));
    SubsetOfSameSize(Elements(a), Elements(b));
  }

  lemma SubsetIsNotLarger<T>(s: set<T>, t: set<T>)
    requires s <= t
    ensures |s| <= |t|
  {
    assert t == s + (t - s);
  }

  lemma {:induction false} DistinctOccurOnce<T>(s: seq<T>, x: T)
    requires NoDuplicates(s)
    ensures multiset(s)[x] == if x in s then 1 else 0
  {
    if s != [] {
      ElementsOfTail(s);
      DistinctOccurOnce(s[1..], x);
      assert s == [s[0]] + s[1..];
    }
  }

  lemma IncludedDistinctIsEqual(a: seq<Restriction>, b: seq<Restriction>)
    requires NoDuplicates(a) && |b| <= |a| && forall i :: 0 <= i < |a| ==> a[i] in b
    ensures multiset(a) == multiset(b)
  {
    IncludedInShorterIsOfSameLength(a, b);
    forall x ensures multiset(a)[x] == multiset(b)[x] {
      DistinctOccurOnce(a, x);
      DistinctOccurOnce(b, x);
      assert x in Elements(a) <==> x in Elements(b);
    }
  }

  lemma EqualIsIncluded(a: seq<Restriction>, b: seq<Restriction>)
    requires multiset(a) == multiset(b)
    ensures forall i :: 0 <= i < |a| ==> a[i] in b
    ensures |a| == |b|
  {
    forall i | 0 <= i < |a| ensures a[i] in b {
      assert a[i] in multiset(a);
    }
    assert |multiset(a)| == |a| && |multiset(b)| == |b|;
  }

  lemma ReplacingChangesTheMultiset<T>(a: seq<T>, j: nat, other: T)
    requires j < |a| && a[j] != other
    ensures multiset(a[j := other]) != multiset(a)
  {
    assert a == a[..j] + [a[j]] + a[j + 1..] && a[j := other] == a[..j] + [other] + a[j + 1..];
    assert multiset(a)[other] == multiset(a[..j])[other] + multiset(a[j + 1..])[other];
    assert multiset(a[j := other])[other] == multiset(a[..j])[other] + 1 + multiset(a[j + 1..])[other];
  }

  lemma LongerIsIncluded(a: seq<Restriction>, extra: Restriction)
    ensures RestrictionsIncluded(Some(a), Some(a + [extra])) && !RestrictionsEqual(Some(a), Some(a + [extra]))
  {
    assert multiset(a + [extra]) == multiset(a) + multiset{extra};
    assert multiset(a + [extra])[extra] == multiset(a)[extra] + 1;
  }

  /** A list of the same length that a list with a duplicate is taken for. */
  lemma DuplicateIsTakenFor(a: seq<Restriction>) returns (b: seq<Restriction>)
    requires !NoDuplicates(a)
    ensures |b| == |a| && RestrictionsIncluded(Some(a), Some(b)) && !RestrictionsEqual(Some(a), Some(b))
  {
    var i, j :| 0 <= i < j < |a| && a[i] == a[j];
    var other: Restriction := if a[j] == map[] then map["" := ""] else map[];
    b := a[j := other];
    assert other != a[j] by { assert "" in map["" := ""]; }
    ReplacingChangesTheMultiset(a, j, other);
    forall k | 0 <= k < |a| ensures a[k] in b {
      if k == j { assert b[i] == a[j]; } else { assert b[k] == a[k]; }
    }
  }

  /** The comparison means equality with every list that is no longer exactly when the first list has no duplicates;
      a longer list that contains the first is always accepted. */
  lemma RestrictionsComparedExactlyWhenDistinct(a: seq<Restriction>)
    ensures NoDuplicates(a) <==>
      forall b: seq<Restriction> :: |b| <= |a| ==>
        (RestrictionsIncluded(Some(a), Some(b)) <==> RestrictionsEqual(Some(a), Some(b)))
    ensures forall extra :: RestrictionsIncluded(Some(a), Some(a + [extra])) && !RestrictionsEqual(Some(a), Some(a + [extra]))
  {
    forall extra
      ensures RestrictionsIncluded(Some(a), Some(a + [extra])) && !RestrictionsEqual(Some(a), Some(a + [extra]))
    {
      LongerIsIncluded(a, extra);
    }
    if NoDuplicates(a) {
      forall b: seq<Restriction> | |b| <= |a|
        ensures RestrictionsIncluded(Some(a), Some(b)) <==> RestrictionsEqual(Some(a), Some(b))
      {
        if RestrictionsIncluded(Some(a), Some(b)) { IncludedDistinctIsEqual(a, b); }
        if RestrictionsEqual(Some(a), Some(b)) { EqualIsIncluded(a, b); }
      }
    } else {
      var b := DuplicateIsTakenFor(a);
    }
  }

  // ---- Groups and requests, for any comparison of restriction lists ----

  type RestrictionRelation = (Restrictions, Restrictions) -> bool

  predicate AttributesRelated(r: RestrictionRelation, a: AttributeGroup, b: AttributeGroup) {
    && b.name == a.name && AreNamesEqual(a.names, b.names) && IsNonRevokedEqual(a.nonRevoked, b.nonRevoked)
    && r(a.restrictions, b.restrictions)
  }

  predicate PredicatesRelated(r: RestrictionRelation, a: PredicateGroup, b: PredicateGroup) {
    && a.name == b.name && a.pType == b.pType && a.pValue == b.pValue
    && IsNonRevokedEqual(a.nonRevoked, b.nonRevoked) && r(a.restrictions, b.restrictions)
  }

  function OnAttributes(r: RestrictionRelation): (AttributeGroup, AttributeGroup) -> bool {
    (a, b) => AttributesRelated(r, a, b)
  }

  function OnPredicates(r: RestrictionRelation): (PredicateGroup, PredicateGroup) -> bool {
    (a, b) => PredicatesRelated(r, a, b)
  }

  predicate RequestsMatch(r: RestrictionRelation, a: ProofRequest, b: ProofRequest) {
    && IsNonRevokedEqual(a.nonRevoked, b.nonRevoked)
    && |a.attributes| == |b.attributes| && Greedy(OnAttributes(r), a.attributes, b.attributes)
    && |a.predicates| == |b.predicates| && Greedy(OnPredicates(r), a.predicates, b.predicates)
  }

  const CODED: RestrictionRelation := RestrictionsIncluded
  const DOCUMENTED: RestrictionRelation := RestrictionsEqual

  method AreAnonCredsProofRequestsEqual(a: ProofRequest, b: ProofRequest) returns (equal: bool)
    ensures equal <==> RequestsMatch(CODED, a, b)
  {
    if !IsNonRevokedEqual(a.nonRevoked, b.nonRevoked) { return false; }
    var attributesMatch := GreedyMatch(OnAttributes(CODED), a.attributes, b.attributes);
    if !attributesMatch { return false; }
    equal := GreedyMatch(OnPredicates(CODED), a.predicates, b.predicates);
  }

  lemma GroupRelationsAreSymmetricTransitive(r: RestrictionRelation)
    requires SymmetricTransitive(r)
    ensures SymmetricTransitive(OnAttributes(r)) && SymmetricTransitive(OnPredicates(r))
  {
    forall x: AttributeGroup, y: AttributeGroup | AttributesRelated(r, x, y) ensures AttributesRelated(r, y, x) {
      NamesAreComparedAsSets(x.names, y.names);
      NamesAreComparedAsSets(y.names, x.names);
    }
    forall x: AttributeGroup, y: AttributeGroup, z: AttributeGroup
      | AttributesRelated(r, x, y) && AttributesRelated(r, y, z)
      ensures AttributesRelated(r, x, z)
    {
      NamesAreComparedAsSets(x.names, y.names);
      NamesAreComparedAsSets(y.names, z.names);
      NamesAreComparedAsSets(x.names, z.names);
    }
  }

  /** With the documented comparison of restrictions, two requests are equal exactly when their groups can be paired one
      to one; and equality is symmetric and transitive. */
  lemma DocumentedEqualityIsMatching(a: ProofRequest, b: ProofRequest, c: ProofRequest)
    ensures RequestsMatch(DOCUMENTED, a, b) <==>
      && IsNonRevokedEqual(a.nonRevoked, b.nonRevoked)
      && Matchable(OnAttributes(DOCUMENTED), a.attributes, b.attributes)
      && Matchable(OnPredicates(DOCUMENTED), a.predicates, b.predicates)
    ensures RequestsMatch(DOCUMENTED, a, b) ==> RequestsMatch(DOCUMENTED, b, a)
    ensures RequestsMatch(DOCUMENTED, a, b) && RequestsMatch(DOCUMENTED, b, c) ==> RequestsMatch(DOCUMENTED, a, c)
  {
    GroupRelationsAreSymmetricTransitive(DOCUMENTED);
    var x, y := OnAttributes(DOCUMENTED), OnPredicates(DOCUMENTED);
    GreedyExactlyWhenMatchable(x, a.attributes, b.attributes);
    GreedyExactlyWhenMatchable(x, b.attributes, a.attributes);
    GreedyExactlyWhenMatchable(x, a.attributes, c.attributes);
    GreedyExactlyWhenMatchable(x, b.attributes, c.attributes);
    GreedyExactlyWhenMatchable(y, a.predicates, b.predicates);
    GreedyExactlyWhenMatchable(y, b.predicates, a.predicates);
    GreedyExactlyWhenMatchable(y, a.predicates, c.predicates);
    GreedyExactlyWhenMatchable(y, b.predicates, c.predicates);
    MatchingIsSymmetricAndTransitive(x, a.attributes, b.attributes, c.attributes);
    MatchingIsSymmetricAndTransitive(y, a.predicates, b.predicates, c.predicates);
  }

  // ---- Requests in canonical form ----

  /** What a group asks for, without the order of names and of restrictions. */
  datatype CanonicalAttributes = CanonicalAttributes(
    name: Option<string>, names: set<string>, nonRevoked: Interval, restrictions: multiset<Restriction>)

  datatype CanonicalPredicate = CanonicalPredicate(
    name: string, pType: string, pValue: int, nonRevoked: Interval, restrictions: multiset<Restriction>)

  function IntervalOf(nonRevoked: Option<Interval>): Interval {
    match nonRevoked
    case Some(i) => i
    case None => Interval(None, None)
  }

  function ListOf<T>(list: Option<seq<T>>): seq<T> {
    match list
    case Some(l) => l
    case None => []
  }

  function CanonicalOfAttributes(g: AttributeGroup): CanonicalAttributes {
    CanonicalAttributes(
      g.name, (set n | n in ListOf(g.names)), IntervalOf(g.nonRevoked), multiset(ListOf(g.restrictions)))
  }

  function CanonicalOfPredicate(g: PredicateGroup): CanonicalPredicate {
    CanonicalPredicate(g.name, g.pType, g.pValue, IntervalOf(g.nonRevoked), multiset(ListOf(g.restrictions)))
  }

  predicate NamesNothingTwice(g: AttributeGroup) {
    forall i, j :: 0 <= i < j < |ListOf(g.names)| ==> ListOf(g.names)[i] != ListOf(g.names)[j]
  }

  lemma AttributesAreRelatedByKey()
    ensures RelatedByKey(OnAttributes(DOCUMENTED), NamesNothingTwice, CanonicalOfAttributes)
  {
    forall x: AttributeGroup, y: AttributeGroup
      ensures OnAttributes(DOCUMENTED)(x, y) <==>
        NamesNothingTwice(x) && NamesNothingTwice(y) && CanonicalOfAttributes(x) == CanonicalOfAttributes(y)
    {
      NamesAreComparedAsSets(x.names, y.names);
      assert x.names.GetOr([]) == ListOf(x.names) && y.names.GetOr([]) == ListOf(y.names);
      assert x.restrictions.GetOr([]) == ListOf(x.restrictions) && y.restrictions.GetOr([]) == ListOf(y.restrictions);
    }
  }

  lemma PredicatesAreRelatedByKey()
    ensures RelatedByKey(OnPredicates(DOCUMENTED), _ => true, CanonicalOfPredicate)
  {
    forall x: PredicateGroup, y: PredicateGroup
      ensures OnPredicates(DOCUMENTED)(x, y) <==> CanonicalOfPredicate(x) == CanonicalOfPredicate(y)
    {
      assert x.restrictions.GetOr([]) == ListOf(x.restrictions) && y.restrictions.GetOr([]) == ListOf(y.restrictions);
    }
  }

  /** With the documented comparison of restrictions, requests are equal exactly when no group names an attribute twice and
      they have the same canonical form: the same global interval and the same groups, in any order. */
  lemma DocumentedEqualityIsCanonical(a: ProofRequest, b: ProofRequest)
    ensures RequestsMatch(DOCUMENTED, a, b) <==>
      && IntervalOf(a.nonRevoked) == IntervalOf(b.nonRevoked)
      && (forall i :: 0 <= i < |a.attributes| ==> NamesNothingTwice(a.attributes[i]))
      && (forall i :: 0 <= i < |b.attributes| ==> NamesNothingTwice(b.attributes[i]))
      && multiset(Keys(CanonicalOfAttributes, a.attributes)) == multiset(Keys(CanonicalOfAttributes, b.attributes))
      && multiset(Keys(CanonicalOfPredicate, a.predicates)) == multiset(Keys(CanonicalOfPredicate, b.predicates))
  {
    AttributesAreRelatedByKey();
    PredicatesAreRelatedByKey();
    GreedyComparesKeys(OnAttributes(DOCUMENTED), NamesNothingTwice, CanonicalOfAttributes, a.attributes, b.attributes);
    GreedyComparesKeys(OnPredicates(DOCUMENTED), _ => true, CanonicalOfPredicate, a.predicates, b.predicates);
  }

  /** As coded the restrictions of the second list may be more; but if one list is missing, both are empty. */
  lemma RestrictionsIncludedExactlyWhen(a: Restrictions, b: Restrictions)
    ensures RestrictionsIncluded(a, b) <==>
      && (forall x :: x in ListOf(a) ==> x in ListOf(b))
      && (a.None? || b.None? ==> ListOf(a) == [] && ListOf(b) == [])
  {
    if a.Some? && b.Some? {
      if RestrictionsIncluded(a, b) {
        forall x | x in ListOf(a) ensures x in ListOf(b) {
          var i :| 0 <= i < |a.value| && a.value[i] == x;
        }
      }
      if forall x :: x in ListOf(a) ==> x in ListOf(b) {
        forall i | 0 <= i < |a.value| ensures a.value[i] in b.value { assert a.value[i] in ListOf(a); }
      }
    }
  }

  /** Two groups that differ at most in the order of their names and in their restrictions, which the second has all. */
  ghost predicate IncludedIn(a: CanonicalAttributes, b: CanonicalAttributes) {
    a.name == b.name && a.names == b.names && a.nonRevoked == b.nonRevoked
    && forall x :: x in a.restrictions ==> x in b.restrictions
  }

  ghost predicate PredicateIncludedIn(a: CanonicalPredicate, b: CanonicalPredicate) {
    a.name == b.name && a.pType == b.pType && a.pValue == b.pValue && a.nonRevoked == b.nonRevoked
    && forall x :: x in a.restrictions ==> x in b.restrictions
  }

  lemma CodedAttributesAreIncluded(x: AttributeGroup, y: AttributeGroup)
    requires OnAttributes(CODED)(x, y)
    ensures IncludedIn(CanonicalOfAttributes(x), CanonicalOfAttributes(y))
  {
    NamesAreComparedAsSets(x.names, y.names);
    RestrictionsIncludedExactlyWhen(x.restrictions, y.restrictions);
    assert x.names.GetOr([]) == ListOf(x.names) && y.names.GetOr([]) == ListOf(y.names);
  }

  lemma CodedPredicatesAreIncluded(x: PredicateGroup, y: PredicateGroup)
    requires OnPredicates(CODED)(x, y)
    ensures PredicateIncludedIn(CanonicalOfPredicate(x), CanonicalOfPredicate(y))
  {
    RestrictionsIncludedExactlyWhen(x.restrictions, y.restrictions);
  }

  ghost predicate IsOneToOne(pairing: seq<nat>, n: nat) {
    && |pairing| == n && (forall i :: 0 <= i < n ==> pairing[i] < n)
    && forall i, j :: 0 <= i < j < n ==> pairing[i] != pairing[j]
  }

  /** As coded, requests that are equal have the same global interval, and their groups can be paired one to one so that
      each is included in its partner. */
  lemma CodedEqualityIsInclusion(a: ProofRequest, b: ProofRequest) returns (p: seq<nat>, q: seq<nat>)
    requires RequestsMatch(CODED, a, b)
    ensures IntervalOf(a.nonRevoked) == IntervalOf(b.nonRevoked)
    ensures IsOneToOne(p, |a.attributes|) && |b.attributes| == |a.attributes|
    ensures forall i :: 0 <= i < |p| ==>
      IncludedIn(CanonicalOfAttributes(a.attributes[i]), CanonicalOfAttributes(b.attributes[p[i]]))
    ensures IsOneToOne(q, |a.predicates|) && |b.predicates| == |a.predicates|
    ensures forall i :: 0 <= i < |q| ==>
      PredicateIncludedIn(CanonicalOfPredicate(a.predicates[i]), CanonicalOfPredicate(b.predicates[q[i]]))
  {
    p := GreedyFindsAPairing(OnAttributes(CODED), a.attributes, b.attributes);
    q := GreedyFindsAPairing(OnPredicates(CODED), a.predicates, b.predicates);
    forall i | 0 <= i < |p|
      ensures IncludedIn(CanonicalOfAttributes(a.attributes[i]), CanonicalOfAttributes(b.attributes[p[i]]))
    {
      CodedAttributesAreIncluded(a.attributes[i], b.attributes[p[i]]);
    }
    forall i | 0 <= i < |q|
      ensures PredicateIncludedIn(CanonicalOfPredicate(a.predicates[i]), CanonicalOfPredicate(b.predicates[q[i]]))
    {
      CodedPredicatesAreIncluded(a.predicates[i], b.predicates[q[i]]);
    }
  }

  // ---- When the code compares whole requests as documented ----

  /** All restriction lists of a request, the groups of attributes before those of predicates. */
  function Lists(a: ProofRequest): seq<Restrictions> {
    seq(|a.attributes|, i requires 0 <= i < |a.attributes| => a.attributes[i].restrictions)
    + seq(|a.predicates|, i requires 0 <= i < |a.predicates| => a.predicates[i].restrictions)
  }

  predicate OfLength(a: ProofRequest, n: nat) {
    forall l :: l in Lists(a) ==> |l.GetOr([])| == n
  }

  predicate NoLongerThan(a: ProofRequest, n: nat) {
    forall l :: l in Lists(a) ==> |l.GetOr([])| <= n
  }

  predicate DistinctLists(a: ProofRequest) {
    forall l :: l in Lists(a) ==> NoDuplicates(l.GetOr([]))
  }

  /** No group names an attribute twice; a request that does equals none, itself included. */
  predicate ProperNames(a: ProofRequest) {
    forall i :: 0 <= i < |a.attributes| ==> NoDuplicates(a.attributes[i].names.GetOr([]))
  }

  lemma ListsOfGroups(a: ProofRequest)
    ensures forall i :: 0 <= i < |a.attributes| ==> a.attributes[i].restrictions in Lists(a)
    ensures forall i :: 0 <= i < |a.predicates| ==> a.predicates[i].restrictions in Lists(a)
    ensures forall l :: l in Lists(a) ==>
      || (exists i :: 0 <= i < |a.attributes| && a.attributes[i].restrictions == l)
      || (exists i :: 0 <= i < |a.predicates| && a.predicates[i].restrictions == l)
  {
    assert forall i :: 0 <= i < |a.attributes| ==> Lists(a)[i] == a.attributes[i].restrictions;
    assert forall i :: 0 <= i < |a.predicates| ==> Lists(a)[|a.attributes| + i] == a.predicates[i].restrictions;
  }

  lemma DistinctListsComparedExactly(a: Restrictions, b: Restrictions)
    requires |b.GetOr([])| <= |a.GetOr([])| && NoDuplicates(a.GetOr([]))
    ensures RestrictionsIncluded(a, b) <==> RestrictionsEqual(a, b)
  {
    var s, t := a.GetOr([]), b.GetOr([]);
    RestrictionsComparedExactlyWhenDistinct(s);
    assert RestrictionsIncluded(Some(s), Some(t)) <==> RestrictionsEqual(Some(s), Some(t));
    if RestrictionsEqual(a, b) { EqualIsIncluded(s, t); }
    if a.Some? && b.None? && |s| > 0 { assert s[0] !in t; }
  }

  ghost predicate ComparedAsDocumented(a: ProofRequest, b: ProofRequest) {
    RequestsMatch(CODED, a, b) <==> RequestsMatch(DOCUMENTED, a, b)
  }

  lemma AgreeingListsAgree(a: ProofRequest, b: ProofRequest)
    requires forall l, m :: l in Lists(a) && m in Lists(b) ==> (CODED(l, m) <==> DOCUMENTED(l, m))
    ensures ComparedAsDocumented(a, b)
  {
    ListsOfGroups(a);
    ListsOfGroups(b);
    GreedyDependsOnPairs(OnAttributes(CODED), OnAttributes(DOCUMENTED), a.attributes, b.attributes);
    GreedyDependsOnPairs(OnPredicates(CODED), OnPredicates(DOCUMENTED), a.predicates, b.predicates);
  }

  /** Requests whose lists have no duplicates are compared as documented with requests whose lists are no longer. */
  lemma UniformRequestsComparedAsDocumented(a: ProofRequest, b: ProofRequest, n: nat)
    requires OfLength(a, n) && DistinctLists(a) && NoLongerThan(b, n)
    ensures ComparedAsDocumented(a, b)
  {
    forall l, m | l in Lists(a) && m in Lists(b) ensures CODED(l, m) <==> DOCUMENTED(l, m) {
      DistinctListsComparedExactly(l, m);
    }
    AgreeingListsAgree(a, b);
  }

  lemma ImproperNamesMatchNothing(r: RestrictionRelation, a: ProofRequest, b: ProofRequest)
    requires !ProperNames(a)
    ensures !RequestsMatch(r, a, b)
  {
    var k :| 0 <= k < |a.attributes| && !NoDuplicates(a.attributes[k].names.GetOr([]));
    if |a.attributes| == |b.attributes| {
      forall y ensures !OnAttributes(r)(a.attributes[k], y) { NamesAreComparedAsSets(a.attributes[k].names, y.names); }
      UnrelatedIsNotMatched(OnAttributes(r), a.attributes, b.attributes, k);
    }
  }

  lemma ProperGroupsAreRelatedToThemselves(r: RestrictionRelation, a: ProofRequest)
    requires ProperNames(a) && forall l :: r(l, l)
    ensures forall i :: 0 <= i < |a.attributes| ==> OnAttributes(r)(a.attributes[i], a.attributes[i])
    ensures forall i :: 0 <= i < |a.predicates| ==> OnPredicates(r)(a.predicates[i], a.predicates[i])
  {
    forall i | 0 <= i < |a.attributes| ensures OnAttributes(r)(a.attributes[i], a.attributes[i]) {
      NamesAreComparedAsSets(a.attributes[i].names, a.attributes[i].names);
    }
  }

  lemma DocumentedIsSymmetricTransitive()
    ensures SymmetricTransitive(OnAttributes(DOCUMENTED)) && SymmetricTransitive(OnPredicates(DOCUMENTED))
  {
    GroupRelationsAreSymmetricTransitive(DOCUMENTED);
  }

  lemma SelfMatch(a: ProofRequest)
    requires ProperNames(a)
    ensures RequestsMatch(CODED, a, a)
  {
    ProperGroupsAreRelatedToThemselves(CODED, a);
    PairwiseRelatedMatchesGreedily(OnAttributes(CODED), a.attributes, a.attributes);
    PairwiseRelatedMatchesGreedily(OnPredicates(CODED), a.predicates, a.predicates);
  }

  lemma ReplacingAnAttributeListTellsApart(a: ProofRequest, k: nat, m: Restrictions)
    requires ProperNames(a) && k < |a.attributes|
    requires CODED(a.attributes[k].restrictions, m) && !DOCUMENTED(a.attributes[k].restrictions, m)
    ensures !ComparedAsDocumented(a, a.(attributes := a.attributes[k := a.attributes[k].(restrictions := m)]))
  {
    var y := a.attributes[k].(restrictions := m);
    SelfMatch(a);
    DocumentedIsSymmetricTransitive();
    ProperGroupsAreRelatedToThemselves(CODED, a);
    ProperGroupsAreRelatedToThemselves(DOCUMENTED, a);
    ReplacingOneTellsApart(OnAttributes(CODED), OnAttributes(DOCUMENTED), a.attributes, k, y);
  }

  lemma ReplacingAPredicateListTellsApart(a: ProofRequest, k: nat, m: Restrictions)
    requires ProperNames(a) && k < |a.predicates|
    requires CODED(a.predicates[k].restrictions, m) && !DOCUMENTED(a.predicates[k].restrictions, m)
    ensures !ComparedAsDocumented(a, a.(predicates := a.predicates[k := a.predicates[k].(restrictions := m)]))
  {
    var y := a.predicates[k].(restrictions := m);
    SelfMatch(a);
    DocumentedIsSymmetricTransitive();
    ProperGroupsAreRelatedToThemselves(CODED, a);
    ProperGroupsAreRelatedToThemselves(DOCUMENTED, a);
    ReplacingOneTellsApart(OnPredicates(CODED), OnPredicates(DOCUMENTED), a.predicates, k, y);
  }

  /** A request with one list replaced by one it is taken for, but does not equal. */
  lemma ReplacingAListTellsApart(a: ProofRequest, l: Restrictions, m: Restrictions) returns (b: ProofRequest)
    requires ProperNames(a) && l in Lists(a) && CODED(l, m) && !DOCUMENTED(l, m)
    ensures !ComparedAsDocumented(a, b)
    ensures forall x :: x in Lists(b) ==> x in Lists(a) || x == m
  {
    ListsOfGroups(a);
    if k :| 0 <= k < |a.attributes| && a.attributes[k].restrictions == l {
      ReplacingAnAttributeListTellsApart(a, k, m);
      b := a.(attributes := a.attributes[k := a.attributes[k].(restrictions := m)]);
    } else {
      var k :| 0 <= k < |a.predicates| && a.predicates[k].restrictions == l;
      ReplacingAPredicateListTellsApart(a, k, m);
      b := a.(predicates := a.predicates[k := a.predicates[k].(restrictions := m)]);
    }
    ListsOfGroups(b);
  }

  /** A request whose lists have one length is compared as documented with all requests whose lists have that length,
      or at most that length, exactly when none of its lists has a duplicate, or one of its groups names an attribute
      twice, so that it equals no request either way. */
  lemma RequestsComparedExactlyWhenDistinct(a: ProofRequest, n: nat)
    requires OfLength(a, n)
    ensures (forall b :: OfLength(b, n) ==> ComparedAsDocumented(a, b)) <==> DistinctLists(a) || !ProperNames(a)
    ensures (forall b :: NoLongerThan(b, n) ==> ComparedAsDocumented(a, b)) <==> DistinctLists(a) || !ProperNames(a)
  {
    if !ProperNames(a) {
      forall b ensures ComparedAsDocumented(a, b) {
        ImproperNamesMatchNothing(CODED, a, b);
        ImproperNamesMatchNothing(DOCUMENTED, a, b);
      }
    } else if DistinctLists(a) {
      forall b | NoLongerThan(b, n) ensures ComparedAsDocumented(a, b) { UniformRequestsComparedAsDocumented(a, b, n); }
      assert forall b :: OfLength(b, n) ==> NoLongerThan(b, n);
    } else {
      var l :| l in Lists(a) && !NoDuplicates(l.GetOr([]));
      var m := DuplicateIsTakenFor(l.value);
      var b := ReplacingAListTellsApart(a, l, Some(m));
      assert OfLength(b, n) && NoLongerThan(b, n);
    }
  }

  /** It is compared as documented with all requests whatsoever exactly when no group has a list of restrictions at
      all, or one names an attribute twice. */
  lemma RequestsAlwaysComparedExactlyWhenUnrestricted(a: ProofRequest)
    ensures (forall b :: ComparedAsDocumented(a, b)) <==> (forall l :: l in Lists(a) ==> l.None?) || !ProperNames(a)
  {
    if !ProperNames(a) {
      forall b ensures ComparedAsDocumented(a, b) {
        ImproperNamesMatchNothing(CODED, a, b);
        ImproperNamesMatchNothing(DOCUMENTED, a, b);
      }
    } else if forall l :: l in Lists(a) ==> l.None? {
      forall b ensures ComparedAsDocumented(a, b) {
        forall m: Restrictions ensures CODED(None, m) <==> DOCUMENTED(None, m) {
          if DOCUMENTED(None, m) { EqualIsIncluded([], m.GetOr([])); }
        }
        AgreeingListsAgree(a, b);
      }
    } else {
      var l :| l in Lists(a) && l.Some?;
      LongerIsIncluded(l.value, map[]);
      var b := ReplacingAListTellsApart(a, l, Some(l.value + [map[]]));
    }
  }

  const ONE: seq<Restriction> := [map["schema_id" := "s"]]
  const TWO: seq<Restriction> := [map["schema_id" := "s"], map["cred_def_id" := "c"]]

  function GroupOf(restrictions: seq<Restriction>): AttributeGroup {
    AttributeGroup(Some("name"), None, None, Some(restrictions))
  }

  lemma GroupsOfOneAndTwo()
    ensures AttributesRelated(CODED, GroupOf(ONE), GroupOf(TWO)) && !AttributesRelated(CODED, GroupOf(TWO), GroupOf(ONE))
    ensures AttributesRelated(CODED, GroupOf(ONE), GroupOf(ONE))
    ensures !AttributesRelated(DOCUMENTED, GroupOf(ONE), GroupOf(TWO))
    ensures AttributesRelated(DOCUMENTED, GroupOf(ONE), GroupOf(ONE))
    ensures AttributesRelated(DOCUMENTED, GroupOf(TWO), GroupOf(TWO))
  {
    assert TWO[0] == ONE[0];
    assert TWO[1] != ONE[0] by { assert "schema_id" !in TWO[1]; }
    assert TWO[1] !in ONE;
    assert |multiset(ONE)| == 1 && |multiset(TWO)| == 2;
  }

  /** As coded equality is not symmetric: a request equals one that allows more, but not the other way around. */
  lemma CodedEqualityIsNotSymmetric()
    ensures var a, b := ProofRequest(None, [GroupOf(ONE)], []), ProofRequest(None, [GroupOf(TWO)], []);
            RequestsMatch(CODED, a, b) && !RequestsMatch(CODED, b, a)
  {
    GroupsOfOneAndTwo();
    var one, two := GroupOf(ONE), GroupOf(TWO);
    assert FirstRelated(OnAttributes(CODED), one, [two]) == 0;
    assert FirstRelated(OnAttributes(CODED), two, [one]) == 1;
    assert [one][1..] == [] && [two][1..] == [];
  }

  lemma SwappedPair<T(!new)>(r: (T, T) -> bool, x: T, y: T)
    ensures r(x, y) && !r(y, x) ==> !Greedy(r, [x, y], [y, x])
    ensures r(x, x) && r(y, y) && !r(x, y) ==> Greedy(r, [x, y], [y, x])
  {
    assert [x, y][1..] == [y] && [y][1..] == [] && [y, x][1..] == [x];
    assert Without([y, x], 0) == [x] && Without([y, x], 1) == [y] && Without([y], 0) == [];
    assert FirstRelated(r, y, [x]) == if r(y, x) then 0 else 1;
    assert r(y, y) ==> Greedy(r, [y], [y]);
  }

  /** As coded a request can differ from itself with its groups in another order, which the documentation rules out. */
  lemma CodedEqualityDependsOnGroupOrder()
    ensures var a := ProofRequest(None, [GroupOf(ONE), GroupOf(TWO)], []);
            var b := ProofRequest(None, [GroupOf(TWO), GroupOf(ONE)], []);
            !RequestsMatch(CODED, a, b) && RequestsMatch(DOCUMENTED, a, b)
  {
    GroupsOfOneAndTwo();
    SwappedPair(OnAttributes(CODED), GroupOf(ONE), GroupOf(TWO));
    SwappedPair(OnAttributes(DOCUMENTED), GroupOf(ONE), GroupOf(TWO));
  }
}
