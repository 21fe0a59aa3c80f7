/** Greedy find-and-splice matching of two lists, for any relation between their elements. */
module GreedyMatching {
  function Without<T>(s: seq<T>, i: nat): seq<T>
    requires i < |s|
  {
    s[..i] + s[i + 1..]
  }

  ghost predicate IsPairing<T(!new)>(related: (T, T) -> bool, a: seq<T>, b: seq<T>, pairing: seq<nat>) {
    && |pairing| == |a| == |b|
    && (forall i :: 0 <= i < |pairing| ==> pairing[i] < |b| && related(a[i], b[pairing[i]]))
    && (forall i, j :: 0 <= i < j < |pairing| ==> pairing[i] != pairing[j])
  }

  /** Whether the elements of two lists can be paired one to one, each pair related. */
  ghost predicate Matchable<T(!new)>(related: (T, T) -> bool, a: seq<T>, b: seq<T>) {
    exists pairing :: IsPairing(related, a, b, pairing)
  }

  ghost predicate SymmetricTransitive<T(!new)>(related: (T, T) -> bool) {
    && (forall x, y :: related(x, y) ==> related(y, x))
    && (forall x, y, z :: related(x, y) && related(y, z) ==> related(x, z))
  }

  // What the greedy matching decides: each element takes the first related one that is left.
  function FirstRelated<T>(related: (T, T) -> bool, x: T, b: seq<T>): (i: nat)
    ensures i <= |b|
    ensures i < |b| ==> related(x, b[i])
    ensures forall k :: 0 <= k < i ==> !related(x, b[k])
  {
    if b == [] then 0 else if related(x, b[0]) then 0 else 1 + FirstRelated(related, x, b[1..])
  }

  function Greedy<T>(related: (T, T) -> bool, a: seq<T>, b: seq<T>): bool {
    if a == [] then true
    else
      var i := FirstRelated(related, a[0], b);
      i < |b| && Greedy(related, a[1..], Without(b, i))
  }

  method GreedyMatch<T>(related: (T, T) -> bool, a: seq<T>, b: seq<T>) returns (matched: bool)
    ensures matched <==> |a| == |b| && Greedy(related, a, b)
  {
    if |a| != |b| { return false; }
    var rest := b;
    for i := 0 to |a|
      invariant Greedy(related, a, b) <==> Greedy(related, a[i..], rest)
    {
      var k := 0;
      while k < |rest| && !related(a[i], rest[k])
        invariant 0 <= k <= |rest|
        invariant forall j :: 0 <= j < k ==> !related(a[i], rest[j])
      {
        k := k + 1;
      }
      assert a[i..][0] == a[i] && a[i..][1..] == a[i + 1..];
      assert k == FirstRelated(related, a[i], rest);
      if k == |rest| { return false; }
      rest := rest[..k] + rest[k + 1..];
    }
    assert a[|a|..] == [];
    return true;
  }

  // ---- Greedy is exact for a symmetric and transitive relation ----

  // A pairing of the lists without a[0] and b[i], read as a pairing that leaves b[i] out.
  function Shift(pairing: seq<nat>, i: nat): seq<nat> {
    seq(|pairing|, k requires 0 <= k < |pairing| => if pairing[k] < i then pairing[k] else pairing[k] + 1)
  }

  function Unshift(pairing: seq<nat>, i: nat): seq<nat>
    requires i !in pairing
  {
    seq(|pairing|, k requires 0 <= k < |pairing| =>
      assert pairing[k] in pairing; if pairing[k] < i then pairing[k] else pairing[k] - 1)
  }

  lemma ShiftedPairs<T(!new)>(related: (T, T) -> bool, a: seq<T>, b: seq<T>, i: nat, rest: seq<nat>, k: nat)
    requires i < |b| && IsPairing(related, a, Without(b, i), rest) && k < |rest|
    ensures var m := Shift(rest, i)[k]; m < |b| && m != i && related(a[k], b[m])
    ensures forall l :: k < l < |rest| ==> Shift(rest, i)[k] != Shift(rest, i)[l]
  {
    assert related(a[k], Without(b, i)[rest[k]]);
  }

  lemma PairOfOneMore<T(!new)>(related: (T, T) -> bool, a: seq<T>, b: seq<T>, i: nat, rest: seq<nat>, k: nat)
    requires a != [] && i < |b| && related(a[0], b[i]) && IsPairing(related, a[1..], Without(b, i), rest) && k < |a|
    ensures var pairing := [i] + Shift(rest, i);
      && pairing[k] < |b| && related(a[k], b[pairing[k]])
      && forall l :: k < l < |a| ==> pairing[k] != pairing[l]
  {
    if k > 0 {
      ShiftedPairs(related, a[1..], b, i, rest, k - 1);
    } else {
      forall l | 0 <= l < |rest| ensures Shift(rest, i)[l] != i { ShiftedPairs(related, a[1..], b, i, rest, l); }
    }
  }

  lemma PairingOfOneMore<T(!new)>(related: (T, T) -> bool, a: seq<T>, b: seq<T>, i: nat, rest: seq<nat>)
    requires a != [] && i < |b| && related(a[0], b[i]) && IsPairing(related, a[1..], Without(b, i), rest)
    ensures IsPairing(related, a, b, [i] + Shift(rest, i))
  {
    var pairing := [i] + Shift(rest, i);
    forall k | 0 <= k < |pairing|
      ensures pairing[k] < |b| && related(a[k], b[pairing[k]])
      ensures forall l :: k < l < |pairing| ==> pairing[k] != pairing[l]
    {
      PairOfOneMore(related, a, b, i, rest, k);
    }
  }

  lemma {:induction false} GreedyFindsAPairing<T(!new)>(related: (T, T) -> bool, a: seq<T>, b: seq<T>)
    returns (pairing: seq<nat>)
    requires |a| == |b| && Greedy(related, a, b)
    ensures IsPairing(related, a, b, pairing)
  {
    if a == [] {
      pairing := [];
    } else {
      var i := FirstRelated(related, a[0], b);
      var rest := GreedyFindsAPairing(related, a[1..], Without(b, i));
      PairingOfOneMore(related, a, b, i, rest);
      pairing := [i] + Shift(rest, i);
    }
  }

  lemma PairingOfTheRest<T(!new)>(related: (T, T) -> bool, a: seq<T>, b: seq<T>, pairing: seq<nat>)
    requires a != [] && IsPairing(related, a, b, pairing)
    ensures pairing[0] !in pairing[1..]
    ensures IsPairing(related, a[1..], Without(b, pairing[0]), Unshift(pairing[1..], pairing[0]))
  {
    var i, tail := pairing[0], pairing[1..];
    forall k | 0 <= k < |tail| ensures tail[k] != i {
      assert tail[k] == pairing[k + 1];
    }
    var rest, c := Unshift(tail, i), Without(b, i);
    forall k | 0 <= k < |rest| ensures rest[k] < |c| && related(a[1..][k], c[rest[k]]) {
      assert tail[k] == pairing[k + 1] && a[1..][k] == a[k + 1];
      assert c[rest[k]] == b[tail[k]];
    }
    forall k, l | 0 <= k < l < |rest| ensures rest[k] != rest[l] {
      assert tail[k] == pairing[k + 1] && tail[l] == pairing[l + 1];
    }
  }

  /** How many elements are related to x. */
  function Count<T>(related: (T, T) -> bool, x: T, s: seq<T>): nat {
    if s == [] then 0 else (if related(x, s[0]) then 1 else 0) + Count(related, x, s[1..])
  }

  lemma {:induction false} CountWithout<T>(related: (T, T) -> bool, x: T, s: seq<T>, i: nat)
    requires i < |s|
    ensures Count(related, x, s) == (if related(x, s[i]) then 1 else 0) + Count(related, x, Without(s, i))
  {
    if i == 0 {
      assert Without(s, 0) == s[1..];
    } else {
      CountWithout(related, x, s[1..], i - 1);
      assert Without(s, i)[1..] == Without(s[1..], i - 1);
    }
  }

  lemma {:induction false} CountedMeansRelated<T>(related: (T, T) -> bool, x: T, s: seq<T>)
    requires Count(related, x, s) > 0
    ensures exists i :: 0 <= i < |s| && related(x, s[i])
  {
    if !related(x, s[0]) {
      CountedMeansRelated(related, x, s[1..]);
      var i :| 0 <= i < |s[1..]| && related(x, s[1..][i]);
      assert related(x, s[i + 1]);
    }
  }

  /** Every element is related to itself, and to as many elements of the one list as of the other. */
  ghost predicate Balanced<T(!new)>(related: (T, T) -> bool, a: seq<T>, b: seq<T>) {
    && |a| == |b|
    && (forall i :: 0 <= i < |a| ==> related(a[i], a[i]))
    && (forall i :: 0 <= i < |b| ==> related(b[i], b[i]))
    && (forall x :: Count(related, x, a) == Count(related, x, b))
  }

  // Two related elements are related to the same elements.
  lemma RelatedAreAlike<T(!new)>(related: (T, T) -> bool, x: T, y: T, z: T)
    requires SymmetricTransitive(related) && related(x, y)
    ensures related(z, x) <==> related(z, y)
    ensures related(x, x) && related(y, y)
  {
    assert related(y, x);
  }

  lemma {:induction false} PairedIsBalanced<T(!new)>(
      related: (T, T) -> bool, a: seq<T>, b: seq<T>, pairing: seq<nat>)
    requires SymmetricTransitive(related) && IsPairing(related, a, b, pairing)
    ensures Balanced(related, a, b)
    decreases |a|
  {
    if a != [] {
      var i := pairing[0];
      PairingOfTheRest(related, a, b, pairing);
      PairedIsBalanced(related, a[1..], Without(b, i), Unshift(pairing[1..], i));
      AddingARelatedPair(related, a, b, i);
    }
  }

  lemma AddingARelatedPair<T(!new)>(related: (T, T) -> bool, a: seq<T>, b: seq<T>, i: nat)
    requires SymmetricTransitive(related) && a != [] && i < |b| && related(a[0], b[i])
    ensures Balanced(related, a[1..], Without(b, i)) <==> Balanced(related, a, b)
  {
    RelatedAreAlike(related, a[0], b[i], a[0]);
    var c := Without(b, i);
    forall x ensures Count(related, x, a) == Count(related, x, b) <==> Count(related, x, a[1..]) == Count(related, x, c) {
      RelatedAreAlike(related, a[0], b[i], x);
      CountWithout(related, x, b, i);
    }
    if Balanced(related, a[1..], c) {
      forall k | 0 <= k < |a| ensures related(a[k], a[k]) {
        if k > 0 { assert a[k] == a[1..][k - 1]; }
      }
      forall k | 0 <= k < |b| ensures related(b[k], b[k]) {
        if k < i { assert b[k] == c[k]; } else if k > i { assert b[k] == c[k - 1]; }
      }
    }
  }

  lemma {:induction false} BalancedIsFoundGreedily<T(!new)>(related: (T, T) -> bool, a: seq<T>, b: seq<T>)
    requires SymmetricTransitive(related) && Balanced(related, a, b)
    ensures Greedy(related, a, b)
    decreases |a|
  {
    if a != [] {
      var i := FirstRelated(related, a[0], b);
      assert Count(related, a[0], a) > 0;
      CountedMeansRelated(related, a[0], b);
      AddingARelatedPair(related, a, b, i);
      BalancedIsFoundGreedily(related, a[1..], Without(b, i));
    }
  }

  /** For a symmetric and transitive relation greedy matching decides exactly whether a one-to-one pairing exists. */
  lemma GreedyExactlyWhenMatchable<T(!new)>(related: (T, T) -> bool, a: seq<T>, b: seq<T>)
    requires SymmetricTransitive(related)
    ensures (|a| == |b| && Greedy(related, a, b)) <==> Matchable(related, a, b)
    ensures Matchable(related, a, b) <==> Balanced(related, a, b)
  {
    if |a| == |b| && Greedy(related, a, b) { var pairing := GreedyFindsAPairing(related, a, b); }
    if Matchable(related, a, b) {
      var pairing :| IsPairing(related, a, b, pairing);
      PairedIsBalanced(related, a, b, pairing);
    }
    if Balanced(related, a, b) { BalancedIsFoundGreedily(related, a, b); }
  }

  // Greedy matching only looks at pairs of an element of the one list and an element of the other.
  lemma {:induction false} GreedyDependsOnPairs<T(!new)>(r: (T, T) -> bool, r': (T, T) -> bool, a: seq<T>, b: seq<T>)
    requires forall i, j :: 0 <= i < |a| && 0 <= j < |b| ==> r(a[i], b[j]) == r'(a[i], b[j])
    ensures Greedy(r, a, b) == Greedy(r', a, b)
    decreases |a|
  {
    if a != [] {
      var i := FirstRelated(r, a[0], b);
      assert FirstRelated(r', a[0], b) == i;
      if i < |b| {
        var c := Without(b, i);
        forall k, j | 0 <= k < |a[1..]| && 0 <= j < |c| ensures r(a[1..][k], c[j]) == r'(a[1..][k], c[j]) {
          assert a[1..][k] == a[k + 1] && c[j] == b[if j < i then j else j + 1];
        }
        GreedyDependsOnPairs(r, r', a[1..], c);
      }
    }
  }

  /** Matching is then symmetric and transitive too. */
  lemma MatchingIsSymmetricAndTransitive<T(!new)>(related: (T, T) -> bool, a: seq<T>, b: seq<T>, c: seq<T>)
    requires SymmetricTransitive(related)
    ensures Matchable(related, a, b) ==> Matchable(related, b, a)
    ensures Matchable(related, a, b) && Matchable(related, b, c) ==> Matchable(related, a, c)
  {
    GreedyExactlyWhenMatchable(related, a, b);
    GreedyExactlyWhenMatchable(related, b, a);
    GreedyExactlyWhenMatchable(related, b, c);
    GreedyExactlyWhenMatchable(related, a, c);
  }

  // ---- Matching by a key ----

  function Keys<T, K>(key: T -> K, s: seq<T>): seq<K> {
    seq(|s|, i requires 0 <= i < |s| => key(s[i]))
  }

  /** Elements are related exactly when both are proper and have the same key. */
  ghost predicate RelatedByKey<T(!new), K>(related: (T, T) -> bool, proper: T -> bool, key: T -> K) {
    forall x, y :: related(x, y) <==> proper(x) && proper(y) && key(x) == key(y)
  }

  lemma {:induction false} CountIsMultiplicity<T(!new), K>(
    related: (T, T) -> bool, proper: T -> bool, key: T -> K, x: T, s: seq<T>)
    requires RelatedByKey(related, proper, key) && proper(x) && forall i :: 0 <= i < |s| ==> proper(s[i])
    ensures Count(related, x, s) == multiset(Keys(key, s))[key(x)]
  {
    if s != [] {
      CountIsMultiplicity(related, proper, key, x, s[1..]);
      assert Keys(key, s) == [key(s[0])] + Keys(key, s[1..]);
    }
  }

  lemma {:induction false} CountOfImproper<T(!new)>(related: (T, T) -> bool, x: T, s: seq<T>)
    requires forall y :: !related(x, y)
    ensures Count(related, x, s) == 0
  {
    if s != [] { CountOfImproper(related, x, s[1..]); }
  }

  lemma SameKeysAreBalanced<T(!new), K>(
    related: (T, T) -> bool, proper: T -> bool, key: T -> K, a: seq<T>, b: seq<T>)
    requires RelatedByKey(related, proper, key)
    requires forall i :: 0 <= i < |a| ==> proper(a[i])
    requires forall i :: 0 <= i < |b| ==> proper(b[i])
    requires multiset(Keys(key, a)) == multiset(Keys(key, b))
    ensures Balanced(related, a, b)
  {
    assert |multiset(Keys(key, a))| == |a| && |multiset(Keys(key, b))| == |b|;
    forall x ensures Count(related, x, a) == Count(related, x, b) {
      if proper(x) {
        CountIsMultiplicity(related, proper, key, x, a);
        CountIsMultiplicity(related, proper, key, x, b);
      } else {
        CountOfImproper(related, x, a);
        CountOfImproper(related, x, b);
      }
    }
  }

  lemma BalancedIsProper<T(!new), K>(
    related: (T, T) -> bool, proper: T -> bool, key: T -> K, a: seq<T>, b: seq<T>)
    requires RelatedByKey(related, proper, key) && Balanced(related, a, b)
    ensures forall i :: 0 <= i < |a| ==> proper(a[i])
    ensures forall i :: 0 <= i < |b| ==> proper(b[i])
  {
    forall i | 0 <= i < |a| ensures proper(a[i]) { assert related(a[i], a[i]); }
    forall i | 0 <= i < |b| ensures proper(b[i]) { assert related(b[i], b[i]); }
  }

  lemma BalancedAtKey<T(!new), K>(
    related: (T, T) -> bool, proper: T -> bool, key: T -> K, a: seq<T>, b: seq<T>, x: T)
    requires RelatedByKey(related, proper, key) && Balanced(related, a, b) && proper(x)
    ensures multiset(Keys(key, a))[key(x)] == multiset(Keys(key, b))[key(x)]
  {
    BalancedIsProper(related, proper, key, a, b);
    CountIsMultiplicity(related, proper, key, x, a);
    CountIsMultiplicity(related, proper, key, x, b);
  }

  lemma KeyHasElement<T, K>(key: T -> K, s: seq<T>, k: K) returns (i: nat)
    requires multiset(Keys(key, s))[k] > 0
    ensures i < |s| && key(s[i]) == k
  {
    assert k in Keys(key, s);
    i :| i < |s| && Keys(key, s)[i] == k;
  }

  lemma BalancedHasSameKeys<T(!new), K>(
    related: (T, T) -> bool, proper: T -> bool, key: T -> K, a: seq<T>, b: seq<T>)
    requires RelatedByKey(related, proper, key) && Balanced(related, a, b)
    ensures forall i :: 0 <= i < |a| ==> proper(a[i])
    ensures forall i :: 0 <= i < |b| ==> proper(b[i])
    ensures multiset(Keys(key, a)) == multiset(Keys(key, b))
  {
    BalancedIsProper(related, proper, key, a, b);
    var m, n := multiset(Keys(key, a)), multiset(Keys(key, b));
    forall k: K ensures m[k] == n[k] {
      if m[k] > 0 {
        var i := KeyHasElement(key, a, k);
        BalancedAtKey(related, proper, key, a, b, a[i]);
      } else if n[k] > 0 {
        var i := KeyHasElement(key, b, k);
        BalancedAtKey(related, proper, key, a, b, b[i]);
      }
    }
    SameMultiplicities(m, n);
  }

  lemma SameMultiplicities<K>(m: multiset<K>, n: multiset<K>)
    requires forall k: K :: m[k] == n[k]
    ensures m == n
  {
  }

  lemma KeyedIsSymmetricTransitive<T(!new), K>(related: (T, T) -> bool, proper: T -> bool, key: T -> K)
    requires RelatedByKey(related, proper, key)
    ensures SymmetricTransitive(related)
  {
  }

  /** If elements are related by a key, greedy matching compares the multisets of keys. */
  lemma GreedyComparesKeys<T(!new), K>(related: (T, T) -> bool, proper: T -> bool, key: T -> K, a: seq<T>, b: seq<T>)
    requires RelatedByKey(related, proper, key)
    ensures (|a| == |b| && Greedy(related, a, b)) <==>
      && (forall i :: 0 <= i < |a| ==> proper(a[i])) && (forall i :: 0 <= i < |b| ==> proper(b[i]))
      && multiset(Keys(key, a)) == multiset(Keys(key, b))
  {
    KeyedIsSymmetricTransitive(related, proper, key);
    GreedyExactlyWhenMatchable(related, a, b);
    if Balanced(related, a, b) { BalancedHasSameKeys(related, proper, key, a, b); }
    if (forall i :: 0 <= i < |a| ==> proper(a[i])) && (forall i :: 0 <= i < |b| ==> proper(b[i]))
       && multiset(Keys(key, a)) == multiset(Keys(key, b)) {
      SameKeysAreBalanced(related, proper, key, a, b);
    }
  }

  // ---- A relation that is too wide is told apart by replacing one element ----

  lemma {:induction false} PairwiseRelatedMatchesGreedily<T(!new)>(related: (T, T) -> bool, a: seq<T>, b: seq<T>)
    requires |a| == |b| && forall i :: 0 <= i < |a| ==> related(a[i], b[i])
    ensures Greedy(related, a, b)
  {
    if a != [] {
      forall i | 0 <= i < |a[1..]| ensures related(a[1..][i], b[1..][i]) {
        assert a[1..][i] == a[i + 1] && b[1..][i] == b[i + 1];
      }
      PairwiseRelatedMatchesGreedily(related, a[1..], b[1..]);
      assert related(a[0], b[0]) && FirstRelated(related, a[0], b) == 0;
      assert Without(b, 0) == b[1..];
    }
  }

  lemma MatchedIsRelated<T(!new)>(related: (T, T) -> bool, a: seq<T>, b: seq<T>, k: nat)
    requires k < |a| == |b| && Greedy(related, a, b)
    ensures exists y :: related(a[k], y)
  {
    var pairing := GreedyFindsAPairing(related, a, b);
    assert related(a[k], b[pairing[k]]);
  }

  /** An element that is related to nothing keeps a list from being matched. */
  lemma UnrelatedIsNotMatched<T(!new)>(related: (T, T) -> bool, a: seq<T>, b: seq<T>, k: nat)
    requires k < |a| == |b| && forall y :: !related(a[k], y)
    ensures !Greedy(related, a, b)
  {
    if Greedy(related, a, b) { MatchedIsRelated(related, a, b, k); }
  }

  /** If the wide relation holds between an element and its replacement and the narrow one does not, the wide one
      matches the two lists and the narrow one does not. */
  lemma ReplacingOneTellsApart<T(!new)>(wide: (T, T) -> bool, narrow: (T, T) -> bool, a: seq<T>, k: nat, y: T)
    requires k < |a| && wide(a[k], y) && forall i :: 0 <= i < |a| ==> wide(a[i], a[i])
    requires SymmetricTransitive(narrow) && narrow(a[k], a[k]) && !narrow(a[k], y)
    ensures Greedy(wide, a, a[k := y]) && !Greedy(narrow, a, a[k := y])
  {
    var b := a[k := y];
    PairwiseRelatedMatchesGreedily(wide, a, b);
    CountWithout(narrow, a[k], a, k);
    CountWithout(narrow, a[k], b, k);
    assert Without(a, k) == Without(b, k);
    GreedyExactlyWhenMatchable(narrow, a, b);
  }
}
