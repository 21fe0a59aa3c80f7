/** A revocation registry as its history of status lists, and the timestamps and intervals of a proof request. */
module RevocationRegistry {
  import opened Wrappers

  /** A status list: `bits[i]` is whether the credential with revocation index i is revoked. */
  datatype StatusList = StatusList(timestamp: nat, bits: seq<bool>)

  type History = seq<StatusList>

  /** All registries, by id. */
  type Ledger = map<string, History>

  /** Lists are published in order, at positive times. */
  ghost predicate Published(h: History) {
    && (forall i :: 0 <= i < |h| ==> 0 < h[i].timestamp)
    && (forall i, j :: 0 <= i < j < |h| ==> h[i].timestamp < h[j].timestamp)
  }

  /** What the registry answers for a time: the latest list that is not newer, if there is one. */
  function At(h: History, t: nat): Option<StatusList> {
    if h == [] then None
    else if h[|h| - 1].timestamp <= t then Some(h[|h| - 1])
    else At(h[..|h| - 1], t)
  }

  /** The i-th list is the latest that is not newer than t. */
  ghost predicate IsLatest(h: History, i: nat, t: nat) {
    i < |h| && h[i].timestamp <= t && forall k :: i < k < |h| ==> t < h[k].timestamp
  }

  lemma {:induction false} AtIsLatest(h: History, t: nat)
    requires Published(h)
    ensures At(h, t).None? <==> forall k :: 0 <= k < |h| ==> t < h[k].timestamp
    ensures At(h, t).Some? ==> exists i: nat :: IsLatest(h, i, t) && h[i] == At(h, t).value
  {
    if h != [] {
      var front := h[..|h| - 1];
      assert forall k :: 0 <= k < |front| ==> front[k] == h[k];
      AtIsLatest(front, t);
      if t < h[|h| - 1].timestamp {
        if At(h, t).Some? {
          var i: nat :| IsLatest(front, i, t) && front[i] == At(front, t).value;
          assert IsLatest(h, i, t);
        }
      } else {
        assert IsLatest(h, |h| - 1, t);
      }
    }
  }

  /** The list of time t is still the current one at a later time exactly when it exists and none was published in
      between. */
  ghost predicate CurrentUntil(h: History, t: nat, later: nat) {
    && (exists i :: 0 <= i < |h| && h[i].timestamp == t)
    && (forall k :: 0 <= k < |h| ==> !(t < h[k].timestamp <= later))
  }

  lemma LatestIsTheAnswer(h: History, i: nat, t: nat)
    requires Published(h) && IsLatest(h, i, t)
    ensures At(h, t) == Some(h[i])
  {
    AtIsLatest(h, t);
    var k: nat :| IsLatest(h, k, t) && h[k] == At(h, t).value;
    assert k == i;
  }

  lemma CurrentIsTheAnswer(h: History, t: nat, later: nat)
    requires Published(h) && t <= later && CurrentUntil(h, t, later)
    ensures At(h, later).Some? && At(h, later).value.timestamp == t && At(h, later) == At(h, t)
  {
    var i: nat :| i < |h| && h[i].timestamp == t;
    assert IsLatest(h, i, t) && IsLatest(h, i, later);
    LatestIsTheAnswer(h, i, t);
    LatestIsTheAnswer(h, i, later);
  }

  lemma AnswerIsCurrent(h: History, later: nat)
    requires Published(h) && At(h, later).Some?
    ensures CurrentUntil(h, At(h, later).value.timestamp, later)
  {
    AtIsLatest(h, later);
    var i: nat :| IsLatest(h, i, later) && h[i] == At(h, later).value;
    assert forall k :: 0 <= k < i ==> h[k].timestamp < h[i].timestamp;
  }

  lemma AtAnswersExactlyTheCurrentList(h: History, t: nat, later: nat)
    requires Published(h) && t <= later
    ensures (At(h, later).Some? && At(h, later).value.timestamp == t) <==> CurrentUntil(h, t, later)
    ensures CurrentUntil(h, t, later) ==> At(h, later) == At(h, t)
  {
    if At(h, later).Some? { AnswerIsCurrent(h, later); }
    if CurrentUntil(h, t, later) { CurrentIsTheAnswer(h, t, later); }
  }

  /** Asking again for the timestamp of an answer gives the same answer. */
  lemma AtIsIdempotent(h: History, t: nat)
    requires Published(h) && At(h, t).Some?
    ensures At(h, At(h, t).value.timestamp) == At(h, t)
  {
    AtIsLatest(h, t);
    var s := At(h, t).value.timestamp;
    var i: nat :| IsLatest(h, i, t) && h[i] == At(h, t).value;
    assert CurrentUntil(h, s, t);
    AtAnswersExactlyTheCurrentList(h, s, t);
  }

  // ---- Non-revocation intervals ----

  datatype Interval = Interval(from: Option<nat>, to: Option<nat>)

  /** A number that JavaScript treats as true. */
  predicate Truthy(n: Option<nat>) {
    n.Some? && n.value != 0
  }

  /** Aries RFC 0441: there is a `to`, and a `from` that is given equals it. */
  predicate BestPractice(i: Interval) {
    Truthy(i.to) && (i.from.Some? ==> i.from == i.to)
  }

  /** The revocation status attached to a credential match: whether it is revoked and the list's timestamp. */
  datatype Status = NotRequested | Status(revoked: bool, timestamp: nat) | Refused

  function GetRevocationStatus(h: History, requested: Option<Interval>, index: Option<nat>): Status {
    if requested.None? || index.None? then NotRequested
    else if !BestPractice(requested.value) then Refused
    else
      var list := At(h, requested.value.to.value);
      if list.None? then Refused
      else Status(index.value < |list.value.bits| && list.value.bits[index.value], list.value.timestamp)
  }

  /** The timestamp it attaches names a published list, and the revocation it reports is that list's. */
  lemma StatusNamesAPublishedList(h: History, requested: Option<Interval>, index: Option<nat>)
    requires Published(h)
    ensures var s := GetRevocationStatus(h, requested, index);
            s.Status? ==>
              && 0 < s.timestamp <= requested.value.to.value
              && At(h, s.timestamp).Some? && At(h, s.timestamp).value.timestamp == s.timestamp
              && At(h, s.timestamp) == At(h, requested.value.to.value)
              && (s.revoked <==> index.value < |At(h, s.timestamp).value.bits| && At(h, s.timestamp).value.bits[index.value])
  {
    if GetRevocationStatus(h, requested, index).Status? {
      AtIsLatest(h, requested.value.to.value);
      AtIsIdempotent(h, requested.value.to.value);
    }
  }
}
