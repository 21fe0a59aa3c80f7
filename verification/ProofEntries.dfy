/** Grouping the credentials selected for a proof: one entry for each credential and timestamp. */
module ProofEntries {
  import opened Wrappers

  /** A credential selected for a referent of the request. */
  datatype Selected = Selected(referent: string, credentialId: string, timestamp: Option<nat>, revealed: bool)

  /** What entries are distinguished by. */
  datatype Key = Key(credentialId: string, timestamp: Option<nat>)

  datatype Entry = Entry(key: Key, linkSecretId: string)

  datatype Prove = Prove(entryIndex: nat, referent: string, isPredicate: bool, disclosed: bool)

  /** Building the entry of a credential: its link secret id, unless a record, registry or status list is missing. */
  type Lookup = Key -> Option<string>

  function KeyOf(s: Selected): Key {
    Key(s.credentialId, s.timestamp)
  }

  function Find(keys: seq<Key>, k: Key): (i: nat)
    ensures i <= |keys| && (i < |keys| <==> k in keys)
    ensures i < |keys| ==> keys[i] == k && k !in keys[..i]
  {
    if keys == [] then 0
    else if keys[0] == k then 0
    else
      var i := 1 + Find(keys[1..], k);
      assert i < |keys| ==> keys[..i] == [keys[0]] + keys[1..][..i - 1];
      i
  }

  /** The different keys, in the order in which they first appear. */
  function Keys(selected: seq<Selected>): seq<Key> {
    if selected == [] then []
    else
      var before, k := Keys(selected[..|selected| - 1]), KeyOf(selected[|selected| - 1]);
      if k in before then before else before + [k]
  }

  lemma KeysStep(selected: seq<Selected>, s: Selected)
    ensures Keys(selected + [s]) == if KeyOf(s) in Keys(selected) then Keys(selected) else Keys(selected) + [KeyOf(s)]
  {
    assert (selected + [s])[..|selected|] == selected;
  }

  /** No key is listed twice, and exactly the keys of the selection are listed. */
  lemma {:induction false} KeysAreDistinctAndComplete(selected: seq<Selected>)
    ensures forall i, j :: 0 <= i < j < |Keys(selected)| ==> Keys(selected)[i] != Keys(selected)[j]
    ensures forall k :: k in Keys(selected) <==> exists i :: 0 <= i < |selected| && KeyOf(selected[i]) == k
  {
    if selected != [] {
      var n := |selected| - 1;
      KeysAreDistinctAndComplete(selected[..n]);
      assert selected == selected[..n] + [selected[n]];
      forall k ensures k in Keys(selected) <==> exists i :: 0 <= i < |selected| && KeyOf(selected[i]) == k {
        if i :| 0 <= i < n && KeyOf(selected[i]) == k { assert KeyOf(selected[..n][i]) == k; }
      }
    }
  }

  /** An entry keeps its index when more is selected. */
  lemma {:induction false} KeysAreAPrefix(selected: seq<Selected>, n: nat)
    requires n <= |selected|
    ensures Keys(selected[..n]) <= Keys(selected)
  {
    if n == |selected| {
      assert selected[..n] == selected;
    } else {
      KeysAreAPrefix(selected[..|selected| - 1], n);
      assert selected[..|selected| - 1][..n] == selected[..n];
    }
  }

  function ProveOf(selected: seq<Selected>, attributes: nat, i: nat): Prove
    requires i < |selected|
  {
    Prove(Find(Keys(selected), KeyOf(selected[i])), selected[i].referent, i >= attributes,
          i >= attributes || selected[i].revealed)
  }

  ghost predicate AllFound(keys: seq<Key>, lookup: Lookup) {
    forall k :: k in keys ==> lookup(k).Some?
  }

  ghost predicate EntriesFor(entries: seq<Entry>, keys: seq<Key>, lookup: Lookup) {
    && |entries| == |keys|
    && forall e :: 0 <= e < |keys| ==> entries[e].key == keys[e] && lookup(keys[e]) == Some(entries[e].linkSecretId)
  }

  ghost predicate ProvesFor(prove: seq<Prove>, selected: seq<Selected>, attributes: nat, n: nat)
    requires n <= |selected|
  {
    |prove| == n && forall i :: 0 <= i < n ==> prove[i] == ProveOf(selected, attributes, i)
  }

  ghost predicate AllProves(prove: seq<Prove>, selected: seq<Selected>, attributes: nat) {
    ProvesFor(prove, selected, attributes, |selected|)
  }

  function EntryKeys(entries: seq<Entry>): seq<Key> {
    seq(|entries|, e requires 0 <= e < |entries| => entries[e].key)
  }

  /** An entry for the same credential and timestamp is used again; otherwise one is added. */
  method UseEntry(credentials: seq<Entry>, ghost keys: seq<Key>, k: Key, lookup: Lookup)
    returns (res: Option<(seq<Entry>, nat)>)
    requires EntriesFor(credentials, keys, lookup)
    ensures res.None? <==> k !in keys && lookup(k).None?
    ensures res.Some? ==> EntriesFor(res.value.0, if k in keys then keys else keys + [k], lookup)
                          && res.value.1 == Find(keys, k)
  {
    assert EntryKeys(credentials) == keys;
    var existing := Find(EntryKeys(credentials), k);
    if existing < |credentials| { return Some((credentials, existing)); }
    var linkSecretId := lookup(k);
    if linkSecretId.None? { return None; }
    res := Some((credentials + [Entry(k, linkSecretId.value)], |credentials|));
  }

  lemma OneMoreProve(prove: seq<Prove>, selected: seq<Selected>, attributes: nat, n: nat)
    requires n < |selected| && ProvesFor(prove, selected, attributes, n)
    ensures ProvesFor(prove + [ProveOf(selected, attributes, n)], selected, attributes, n + 1)
  {
  }

  /** The two loops over the selection; the first `attributes` referents are attributes. */
  method AddEntries(selected: seq<Selected>, attributes: nat, lookup: Lookup)
    returns (res: Option<(seq<Entry>, seq<Prove>)>)
    ensures res.Some? <==> AllFound(Keys(selected), lookup)
    ensures res.Some? ==> EntriesFor(res.value.0, Keys(selected), lookup)
                          && AllProves(res.value.1, selected, attributes)
  {
    var credentials: seq<Entry>, prove: seq<Prove> := [], [];
    for n := 0 to |selected|
      invariant EntriesFor(credentials, Keys(selected[..n]), lookup)
      invariant ProvesFor(prove, selected, attributes, n)
    {
      IndexIsFinal(selected, n);
      var used := UseEntry(credentials, Keys(selected[..n]), KeyOf(selected[n]), lookup);
      if used.None? { return None; }
      credentials := used.value.0;
      OneMoreProve(prove, selected, attributes, n);
      prove := prove + [Prove(used.value.1, selected[n].referent, n >= attributes, n >= attributes || selected[n].revealed)];
    }
    assert selected[..|selected|] == selected;
    EntriesAreFound(credentials, Keys(selected), lookup);
    res := Some((credentials, prove));
  }

  lemma EntriesAreFound(entries: seq<Entry>, keys: seq<Key>, lookup: Lookup)
    requires EntriesFor(entries, keys, lookup)
    ensures AllFound(keys, lookup)
  {
  }

  /** The index an entry has or gets when its referent is reached is its index in the end. */
  lemma {:induction false} IndexIsFinal(selected: seq<Selected>, n: nat)
    requires n < |selected|
    ensures var before, k := Keys(selected[..n]), KeyOf(selected[n]);
      && Keys(selected[..n + 1]) == (if k in before then before else before + [k])
      && k in Keys(selected)
      && Find(before, k) == Find(Keys(selected), k)
  {
    var k := KeyOf(selected[n]);
    assert selected[..n + 1] == selected[..n] + [selected[n]];
    KeysStep(selected[..n], selected[n]);
    KeysAreAPrefix(selected, n + 1);
    KeysAreDistinctAndComplete(selected);
    FindInPrefix(Keys(selected[..n]), Keys(selected), k);
  }

  lemma FindInPrefix(before: seq<Key>, all: seq<Key>, k: Key)
    requires before <= all && (k in before || before + [k] <= all)
    requires forall i, j :: 0 <= i < j < |all| ==> all[i] != all[j]
    ensures Find(before, k) == Find(all, k)
  {
    var i := Find(before, k);
    assert all[i] == k;
  }

  datatype Error = NotFound | LinkSecretsDiffer

  /** The attributes before the predicates. */
  function Selection(attributes: seq<Selected>, predicates: seq<Selected>): seq<Selected> {
    attributes + predicates
  }

  ghost predicate ProvesSelection(prove: seq<Prove>, attributes: seq<Selected>, predicates: seq<Selected>) {
    AllProves(prove, Selection(attributes, predicates), |attributes|)
  }

  /** All entries are for one link secret, if there are any. */
  ghost predicate OneLinkSecret(keys: seq<Key>, lookup: Lookup, linkSecretId: Option<string>) {
    forall k :: k in keys ==> lookup(k) == linkSecretId
  }

  method CreateProofEntries(attributes: seq<Selected>, predicates: seq<Selected>, lookup: Lookup)
    returns (res: Result<(seq<Entry>, seq<Prove>, Option<string>), Error>)
    ensures res == Err(NotFound) <==> !AllFound(Keys(Selection(attributes, predicates)), lookup)
    ensures res == Err(LinkSecretsDiffer) ==>
      forall id :: !OneLinkSecret(Keys(Selection(attributes, predicates)), lookup, id)
    ensures res.Ok? ==>
      && EntriesFor(res.value.0, Keys(Selection(attributes, predicates)), lookup)
      && ProvesSelection(res.value.1, attributes, predicates)
      && OneLinkSecret(Keys(Selection(attributes, predicates)), lookup, res.value.2)
  {
    var selected := Selection(attributes, predicates);
    var added := AddEntries(selected, |attributes|, lookup);
    if added.None? { return Err(NotFound); }
    var entries := added.value.0;
    ghost var keys := Keys(selected);
    for e := 0 to |entries|
      invariant forall d :: 0 <= d < e ==> lookup(keys[d]) == Some(entries[0].linkSecretId)
    {
      if entries[e].linkSecretId != entries[0].linkSecretId {
        assert keys[e] in keys && keys[0] in keys && lookup(keys[e]) != lookup(keys[0]);
        assert forall id :: !OneLinkSecret(keys, lookup, id);
        return Err(LinkSecretsDiffer);
      }
    }
    res := Ok((entries, added.value.1, if |entries| > 0 then Some(entries[0].linkSecretId) else None));
  }

  // ---- What the grouping gives ----

  /** There is a prove item for each attribute and then for each predicate, in order, for its referent; and of an attribute
      nothing is disclosed exactly if it is not to be revealed. */
  lemma EveryReferentIsProved(prove: seq<Prove>, attributes: seq<Selected>, predicates: seq<Selected>)
    requires ProvesSelection(prove, attributes, predicates)
    ensures |prove| == |attributes| + |predicates|
    ensures forall i :: 0 <= i < |attributes| ==>
      && prove[i].referent == attributes[i].referent && !prove[i].isPredicate
      && prove[i].disclosed == attributes[i].revealed
    ensures forall j :: 0 <= j < |predicates| ==>
      var p := prove[|attributes| + j]; p.referent == predicates[j].referent && p.isPredicate && p.disclosed
  {
    assert forall j :: 0 <= j < |predicates| ==> Selection(attributes, predicates)[|attributes| + j] == predicates[j];
  }

  /** Each referent has its prove item, which points at an entry for its own credential and timestamp. */
  lemma {:induction false} ProveItemsPointAtTheirOwn(
    entries: seq<Entry>, selected: seq<Selected>, attributes: nat, lookup: Lookup, i: nat)
    requires EntriesFor(entries, Keys(selected), lookup) && i < |selected|
    ensures var p := ProveOf(selected, attributes, i);
      && p.entryIndex < |entries|
      && entries[p.entryIndex].key.credentialId == selected[i].credentialId
      && entries[p.entryIndex].key.timestamp == selected[i].timestamp
      && lookup(entries[p.entryIndex].key) == Some(entries[p.entryIndex].linkSecretId)
  {
    KeysAreDistinctAndComplete(selected);
    assert KeyOf(selected[i]) in Keys(selected);
  }

  /** Two referents share an entry exactly when their credential and timestamp are the same. */
  lemma {:induction false} EntriesAreSharedExactlyWhen(selected: seq<Selected>, attributes: nat, i: nat, j: nat)
    requires i < |selected| && j < |selected|
    ensures ProveOf(selected, attributes, i).entryIndex == ProveOf(selected, attributes, j).entryIndex <==>
            selected[i].credentialId == selected[j].credentialId && selected[i].timestamp == selected[j].timestamp
  {
    KeysAreDistinctAndComplete(selected);
    assert KeyOf(selected[i]) in Keys(selected) && KeyOf(selected[j]) in Keys(selected);
  }

  ghost predicate IsUsed(selected: seq<Selected>, attributes: nat, e: nat) {
    exists i: nat :: i < |selected| && ProveOf(selected, attributes, i).entryIndex == e
  }

  /** No entry is idle, and no two are for the same credential and timestamp. */
  lemma {:induction false} EntriesAreDistinctAndUsed(
    entries: seq<Entry>, selected: seq<Selected>, attributes: nat, lookup: Lookup)
    requires EntriesFor(entries, Keys(selected), lookup)
    ensures forall d, e :: 0 <= d < e < |entries| ==> entries[d].key != entries[e].key
    ensures forall e: nat :: e < |entries| ==> IsUsed(selected, attributes, e)
  {
    KeysAreDistinctAndComplete(selected);
    forall e: nat | e < |entries| ensures IsUsed(selected, attributes, e) {
      assert Keys(selected)[e] in Keys(selected);
      var i :| 0 <= i < |selected| && KeyOf(selected[i]) == Keys(selected)[e];
      assert ProveOf(selected, attributes, i).entryIndex == e;
    }
  }
}
