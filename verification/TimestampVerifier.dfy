/** The verifier's check of proof timestamps, and the second implementation of the same rule for W3C credentials. */
module TimestampVerifier {
  import opened Wrappers
  import opened RevocationRegistry

  datatype Restriction = Restriction(schemaId: Option<string>, credDefId: Option<string>, revRegId: Option<string>)

  /** A requested attribute or predicate group. */
  datatype Group = Group(nonRevoked: Option<Interval>, restrictions: seq<Restriction>)

  datatype Identifier = Identifier(
    schemaId: string, credDefId: string, revRegId: Option<string>, timestamp: Option<nat>)

  datatype Override = Override(listTimestamp: nat, requestedFrom: nat, revRegId: string)

  datatype Outcome = Verified(overrides: seq<Override>) | NotVerified | Threw

  // ---- The rule ----

  /** The restrictions of a group that asks for non-revocation, each with the interval it asks for. */
  function GroupRestrictions(global: Option<Interval>, g: Group): seq<(Interval, Restriction)> {
    var interval := if g.nonRevoked.Some? then g.nonRevoked else global;
    if interval.None? then []
    else WithInterval(interval.value, g.restrictions)
  }

  function Requested(global: Option<Interval>, groups: seq<Group>): seq<(Interval, Restriction)> {
    if groups == [] then []
    else Requested(global, groups[..|groups| - 1]) + GroupRestrictions(global, groups[|groups| - 1])
  }

  predicate Related(r: Restriction, id: Identifier) {
    r.revRegId == id.revRegId || r.credDefId == Some(id.credDefId) || r.schemaId == Some(id.schemaId)
  }

  /** The `from` asked for by the first restriction that is related to an identifier. */
  function RequestedFrom(requested: seq<(Interval, Restriction)>, id: Identifier): Option<nat> {
    if requested == [] then None
    else if Related(requested[0].1, id) then requested[0].0.from
    else RequestedFrom(requested[1..], id)
  }

  /** Whether an identifier has a timestamp that is older than the requested `from`. */
  predicate Outdated(requested: seq<(Interval, Restriction)>, id: Identifier) {
    && Truthy(id.timestamp) && id.revRegId.Some? && id.revRegId.value != ""
    && Truthy(RequestedFrom(requested, id)) && RequestedFrom(requested, id).value > id.timestamp.value
  }

  function HistoryOf(ledger: Ledger, id: Identifier): History {
    if id.revRegId.Some? && id.revRegId.value in ledger then ledger[id.revRegId.value] else []
  }

  /** The list of an outdated identifier is still the one in force at the requested `from`. */
  ghost predicate StillInForce(ledger: Ledger, requested: seq<(Interval, Restriction)>, id: Identifier) {
    Outdated(requested, id) ==>
      CurrentUntil(HistoryOf(ledger, id), id.timestamp.value, RequestedFrom(requested, id).value)
  }

  /** An outdated identifier for which the registry has no list at all at the requested `from`. */
  predicate NoListInForce(ledger: Ledger, requested: seq<(Interval, Restriction)>, id: Identifier) {
    Outdated(requested, id) && At(HistoryOf(ledger, id), RequestedFrom(requested, id).value).None?
  }

  function OverrideOf(requested: seq<(Interval, Restriction)>, id: Identifier): Override
    requires Outdated(requested, id)
  {
    Override(id.timestamp.value, RequestedFrom(requested, id).value, id.revRegId.value)
  }

  /** One override for each outdated identifier, in their order. */
  function Overrides(requested: seq<(Interval, Restriction)>, ids: seq<Identifier>): seq<Override> {
    if ids == [] then []
    else
      Overrides(requested, ids[..|ids| - 1])
      + (if Outdated(requested, ids[|ids| - 1]) then [OverrideOf(requested, ids[|ids| - 1])] else [])
  }

  ghost predicate PublishedAll(ledger: Ledger) {
    forall id :: id in ledger ==> Published(ledger[id])
  }

  // ---- What is requested ----

  /** The interval a group asks for: its own, or else the global one. */
  function Asked(global: Option<Interval>, g: Group): Option<Interval> {
    match g.nonRevoked
    case Some(own) => Some(own)
    case None => global
  }

  /** How many restrictions the first groups have that ask for an interval. */
  function CountAsking(global: Option<Interval>, groups: seq<Group>): nat {
    if groups == [] then 0
    else
      CountAsking(global, groups[..|groups| - 1])
      + (if Asked(global, groups[|groups| - 1]).Some? then |groups[|groups| - 1].restrictions| else 0)
  }

  lemma {:induction false} RequestedAreAsMany(global: Option<Interval>, groups: seq<Group>)
    ensures |Requested(global, groups)| == CountAsking(global, groups)
  {
    if groups != [] { RequestedAreAsMany(global, groups[..|groups| - 1]); }
  }

  /** Requested are, in the order of the groups and in each in the order of its restrictions, exactly the restrictions of
      the groups that ask for an interval, each with that interval. */
  lemma {:induction false} RequestedAreTheAskingOnes(global: Option<Interval>, groups: seq<Group>, g: nat, r: nat)
    requires g < |groups| && Asked(global, groups[g]).Some? && r < |groups[g].restrictions|
    ensures |Requested(global, groups)| == CountAsking(global, groups)
    ensures var i := CountAsking(global, groups[..g]) + r;
      i < CountAsking(global, groups)
      && Requested(global, groups)[i] == (Asked(global, groups[g]).value, groups[g].restrictions[r])
  {
    var n := |groups| - 1;
    RequestedAreAsMany(global, groups);
    RequestedAreAsMany(global, groups[..n]);
    var front, part := Requested(global, groups[..n]), GroupRestrictions(global, groups[n]);
    assert Requested(global, groups) == front + part;
    if g < n {
      RequestedAreTheAskingOnes(global, groups[..n], g, r);
      assert groups[..n][..g] == groups[..g];
    } else {
      assert (front + part)[|front| + r] == part[r];
    }
  }

  /** A restriction of a group that asks for an interval names the identifier's registry, credential definition or
      schema. */
  predicate AsksFor(global: Option<Interval>, groups: seq<Group>, g: nat, r: nat, id: Identifier) {
    && g < |groups| && r < |groups[g].restrictions| && Asked(global, groups[g]).Some?
    && var restriction := groups[g].restrictions[r];
       || restriction.revRegId == id.revRegId
       || restriction.credDefId == Some(id.credDefId)
       || restriction.schemaId == Some(id.schemaId)
  }

  /** The first one that does, in the order of the groups and then of the restrictions. */
  ghost predicate FirstAskingFor(global: Option<Interval>, groups: seq<Group>, g: nat, r: nat, id: Identifier) {
    && AsksFor(global, groups, g, r, id)
    && (forall h: nat, s: nat :: h < g ==> !AsksFor(global, groups, h, s, id))
    && (forall s: nat :: s < r ==> !AsksFor(global, groups, g, s, id))
  }

  lemma {:induction false} RequestedFromAppend(a: seq<(Interval, Restriction)>, b: seq<(Interval, Restriction)>, id: Identifier)
    ensures RequestedFrom(a + b, id) ==
            if exists i :: 0 <= i < |a| && Related(a[i].1, id) then RequestedFrom(a, id) else RequestedFrom(b, id)
  {
    if a == [] {
      assert a + b == b;
    } else {
      assert (a + b)[1..] == a[1..] + b;
      RequestedFromAppend(a[1..], b, id);
      if i :| 0 <= i < |a| && Related(a[i].1, id) { assert i > 0 ==> Related(a[1..][i - 1].1, id); }
      if i :| 0 <= i < |a[1..]| && Related(a[1..][i].1, id) { assert a[1..][i] == a[i + 1]; }
    }
  }

  lemma {:induction false} FirstRelatedDecides(requested: seq<(Interval, Restriction)>, i: nat, id: Identifier)
    requires i <= |requested| && forall j :: 0 <= j < i ==> !Related(requested[j].1, id)
    requires i < |requested| ==> Related(requested[i].1, id)
    ensures RequestedFrom(requested, id) == if i < |requested| then requested[i].0.from else None
  {
    if i > 0 { FirstRelatedDecides(requested[1..], i - 1, id); }
  }

  lemma GroupAsksFor(global: Option<Interval>, groups: seq<Group>, g: nat, id: Identifier)
    requires g < |groups|
    ensures var part := GroupRestrictions(global, groups[g]);
      && (forall r: nat :: r < |part| && Related(part[r].1, id) ==> AsksFor(global, groups, g, r, id))
      && (forall r: nat :: AsksFor(global, groups, g, r, id) ==> r < |part| && Related(part[r].1, id))
  {
  }

  lemma {:induction false} SomeAsksExactlyWhenRelated(global: Option<Interval>, groups: seq<Group>, id: Identifier)
    ensures (exists i :: 0 <= i < |Requested(global, groups)| && Related(Requested(global, groups)[i].1, id)) <==>
            exists g: nat, r: nat :: AsksFor(global, groups, g, r, id)
  {
    if groups != [] {
      var n := |groups| - 1;
      var front, part := Requested(global, groups[..n]), GroupRestrictions(global, groups[n]);
      SomeAsksExactlyWhenRelated(global, groups[..n], id);
      GroupAsksFor(global, groups, n, id);
      assert Requested(global, groups) == front + part;
      forall g: nat, r: nat | g < n
        ensures AsksFor(global, groups[..n], g, r, id) <==> AsksFor(global, groups, g, r, id)
      {
      }
      var all := Requested(global, groups);
      if i :| 0 <= i < |all| && Related(all[i].1, id) {
        if i < |front| {
          assert Related(front[i].1, id);
        } else {
          assert AsksFor(global, groups, n, i - |front|, id);
        }
      }
      if g: nat, r: nat :| AsksFor(global, groups, g, r, id) {
        if g == n {
          assert all[|front| + r] == part[r];
        } else {
          assert AsksFor(global, groups[..n], g, r, id);
          var i :| 0 <= i < |front| && Related(front[i].1, id);
          assert all[i] == front[i];
        }
      }
    }
  }

  /** The `from` looked at is that of the first restriction that asks for the identifier, and none if there is none. */
  lemma {:induction false} FromOfTheFirstAsking(
    global: Option<Interval>, groups: seq<Group>, g: nat, r: nat, id: Identifier)
    ensures FirstAskingFor(global, groups, g, r, id) ==>
      RequestedFrom(Requested(global, groups), id) == Asked(global, groups[g]).value.from
    ensures (forall h: nat, s: nat :: !AsksFor(global, groups, h, s, id)) ==>
      RequestedFrom(Requested(global, groups), id) == None
  {
    if groups != [] {
      var n := |groups| - 1;
      var front, part := Requested(global, groups[..n]), GroupRestrictions(global, groups[n]);
      FromOfTheFirstAsking(global, groups[..n], g, r, id);
      RequestedFromAppend(front, part, id);
      SomeAsksExactlyWhenRelated(global, groups[..n], id);
      GroupAsksFor(global, groups, n, id);
      assert forall h: nat, s: nat :: AsksFor(global, groups[..n], h, s, id) <==> h < n && AsksFor(global, groups, h, s, id);
      if FirstAskingFor(global, groups, g, r, id) {
        if g == n {
          FirstRelatedDecides(part, r, id);
        } else {
          assert FirstAskingFor(global, groups[..n], g, r, id);
        }
      } else if forall h: nat, s: nat :: !AsksFor(global, groups, h, s, id) {
        FirstRelatedDecides(part, |part|, id);
      }
    }
  }

  /** If every group has an interval of its own, the global one does not matter. */
  lemma {:induction false} OwnIntervalsDecide(a: Option<Interval>, b: Option<Interval>, groups: seq<Group>)
    requires forall g :: 0 <= g < |groups| ==> groups[g].nonRevoked.Some?
    ensures Requested(a, groups) == Requested(b, groups)
  {
    if groups != [] { OwnIntervalsDecide(a, b, groups[..|groups| - 1]); }
  }

  // ---- The implementation ----

  method FirstRelatedFrom(requested: seq<(Interval, Restriction)>, id: Identifier) returns (from: Option<nat>)
    ensures from == RequestedFrom(requested, id)
  {
    var i := 0;
    while i < |requested| && !Related(requested[i].1, id)
      invariant 0 <= i <= |requested|
      invariant RequestedFrom(requested, id) == RequestedFrom(requested[i..], id)
    {
      assert requested[i..][1..] == requested[i + 1..];
      i := i + 1;
    }
    from := if i < |requested| then requested[i].0.from else None;
  }

  function WithInterval(interval: Interval, restrictions: seq<Restriction>): seq<(Interval, Restriction)> {
    seq(|restrictions|, i requires 0 <= i < |restrictions| => (interval, restrictions[i]))
  }

  method CollectGroup(before: seq<(Interval, Restriction)>, interval: Interval, restrictions: seq<Restriction>)
    returns (requested: seq<(Interval, Restriction)>)
    ensures requested == before + WithInterval(interval, restrictions)
  {
    requested := before;
    for r := 0 to |restrictions|
      invariant requested == before + WithInterval(interval, restrictions)[..r]
    {
      requested := requested + [(interval, restrictions[r])];
    }
  }

  method CollectRequested(global: Option<Interval>, groups: seq<Group>) returns (requested: seq<(Interval, Restriction)>)
    ensures requested == Requested(global, groups)
  {
    requested := [];
    for g := 0 to |groups|
      invariant requested == Requested(global, groups[..g])
    {
      assert groups[..g + 1][..g] == groups[..g];
      var interval := if groups[g].nonRevoked.Some? then groups[g].nonRevoked else global;
      if interval.Some? {
        requested := CollectGroup(requested, interval.value, groups[g].restrictions);
      }
    }
    assert groups[..|groups|] == groups;
  }

  /** The first identifier whose list is not in force any more. */
  ghost predicate FirstFailure(ledger: Ledger, requested: seq<(Interval, Restriction)>, ids: seq<Identifier>, k: nat) {
    && k < |ids| && !StillInForce(ledger, requested, ids[k])
    && forall j :: 0 <= j < k ==> StillInForce(ledger, requested, ids[j])
  }

  /** What the check of all identifiers comes to: verified, with one override for each outdated identifier, exactly when
      every list is still in force; otherwise the first failure decides. */
  ghost predicate IsOutcome(
    ledger: Ledger, requested: seq<(Interval, Restriction)>, ids: seq<Identifier>, outcome: Outcome)
  {
    match outcome
    case Verified(overrides) =>
      && overrides == Overrides(requested, ids)
      && forall k :: 0 <= k < |ids| ==> StillInForce(ledger, requested, ids[k])
    case Threw => exists k: nat :: FirstFailure(ledger, requested, ids, k) && NoListInForce(ledger, requested, ids[k])
    case NotVerified =>
      exists k: nat :: FirstFailure(ledger, requested, ids, k) && !NoListInForce(ledger, requested, ids[k])
  }

  lemma OutcomeIsUnique(
    ledger: Ledger, requested: seq<(Interval, Restriction)>, ids: seq<Identifier>, a: Outcome, b: Outcome)
    requires IsOutcome(ledger, requested, ids, a) && IsOutcome(ledger, requested, ids, b)
    ensures a == b
  {
    if !a.Verified? {
      var k: nat :| FirstFailure(ledger, requested, ids, k)
                    && (if a.Threw? then NoListInForce(ledger, requested, ids[k]) else !NoListInForce(ledger, requested, ids[k]));
      if !b.Verified? {
        var l: nat :| FirstFailure(ledger, requested, ids, l)
                      && (if b.Threw? then NoListInForce(ledger, requested, ids[l]) else !NoListInForce(ledger, requested, ids[l]));
        assert k == l;
      }
    }
  }

  /** An identifier older than the `from` that is asked for it names the list that is still in force then. */
  ghost predicate IsTimely(ledger: Ledger, from: Option<nat>, id: Identifier) {
    Truthy(id.timestamp) && id.revRegId.GetOr("") != "" && Truthy(from) && from.value > id.timestamp.value ==>
      CurrentUntil(HistoryOf(ledger, id), id.timestamp.value, from.value)
  }

  /** The same of the request: for the first restriction that asks for the identifier, if any does. */
  ghost predicate Passes(ledger: Ledger, global: Option<Interval>, groups: seq<Group>, id: Identifier) {
    forall g: nat, r: nat :: FirstAskingFor(global, groups, g, r, id) ==>
      IsTimely(ledger, Asked(global, groups[g]).value.from, id)
  }

  /** Restrictions that ask for an identifier have a first one. */
  lemma SomeAsksFirst(global: Option<Interval>, groups: seq<Group>, id: Identifier, g: nat, r: nat) returns (h: nat, s: nat)
    requires AsksFor(global, groups, g, r, id)
    ensures FirstAskingFor(global, groups, h, s, id)
    decreases g, r
  {
    if x: nat, y: nat :| x < g && AsksFor(global, groups, x, y, id) {
      h, s := SomeAsksFirst(global, groups, id, x, y);
    } else if y: nat :| y < r && AsksFor(global, groups, g, y, id) {
      h, s := SomeAsksFirst(global, groups, id, g, y);
    } else {
      h, s := g, r;
    }
  }

  lemma PassesExactlyWhenStillInForce(ledger: Ledger, global: Option<Interval>, groups: seq<Group>, id: Identifier)
    ensures StillInForce(ledger, Requested(global, groups), id) <==> Passes(ledger, global, groups, id)
  {
    if g: nat, r: nat :| AsksFor(global, groups, g, r, id) {
      var h, s := SomeAsksFirst(global, groups, id, g, r);
      FromOfTheFirstAsking(global, groups, h, s, id);
      forall x: nat, y: nat | FirstAskingFor(global, groups, x, y, id) ensures x == h && y == s {
        assert !(x < h) && !(h < x);
      }
    } else {
      FromOfTheFirstAsking(global, groups, 0, 0, id);
    }
  }

  datatype Verdict = UpToDate | Overridden(override: Override) | Replaced | NoList

  /** The body of the loop over the identifiers. */
  method CheckIdentifier(ledger: Ledger, requested: seq<(Interval, Restriction)>, id: Identifier)
    returns (verdict: Verdict)
    requires PublishedAll(ledger)
    ensures verdict.UpToDate? <==> !Outdated(requested, id)
    ensures verdict.UpToDate? || verdict.Overridden? <==> StillInForce(ledger, requested, id)
    ensures verdict.Overridden? ==> verdict.override == OverrideOf(requested, id)
    ensures verdict.NoList? <==> NoListInForce(ledger, requested, id)
  {
    if !Truthy(id.timestamp) || id.revRegId.None? || id.revRegId.value == "" { return UpToDate; }
    var from := FirstRelatedFrom(requested, id);
    if Truthy(from) && from.value > id.timestamp.value {
      InForceIsDecidable(ledger, requested, id);
      var list := At(HistoryOf(ledger, id), from.value);
      if list.None? { return NoList; }
      if list.value.timestamp == id.timestamp.value {
        return Overridden(Override(id.timestamp.value, from.value, id.revRegId.value));
      }
      return Replaced;
    }
    verdict := UpToDate;
  }

  /** The loop over the identifiers. */
  method VerifyIdentifiers(ledger: Ledger, requested: seq<(Interval, Restriction)>, ids: seq<Identifier>)
    returns (outcome: Outcome)
    requires PublishedAll(ledger)
    ensures IsOutcome(ledger, requested, ids, outcome)
  {
    var overrides := [];
    for i := 0 to |ids|
      invariant forall k :: 0 <= k < i ==> StillInForce(ledger, requested, ids[k])
      invariant overrides == Overrides(requested, ids[..i])
    {
      NextOverride(requested, ids, i);
      var verdict := CheckIdentifier(ledger, requested, ids[i]);
      match verdict
      case UpToDate =>
      case Overridden(o) => overrides := overrides + [o];
      case Replaced =>
        assert FirstFailure(ledger, requested, ids, i);
        return NotVerified;
      case NoList =>
        assert FirstFailure(ledger, requested, ids, i);
        return Threw;
    }
    assert ids[..|ids|] == ids;
    return Verified(overrides);
  }

  /** Verified exactly when every identifier older than the `from` of the first restriction that asks for it names the list
      that is still in force then, with one override for each of them; it throws when the first that does not has no
      list. */
  method VerifyTimestamps(ledger: Ledger, global: Option<Interval>, groups: seq<Group>, ids: seq<Identifier>)
    returns (outcome: Outcome)
    requires PublishedAll(ledger)
    ensures IsOutcome(ledger, Requested(global, groups), ids, outcome)
    ensures outcome.Verified? <==> forall k :: 0 <= k < |ids| ==> Passes(ledger, global, groups, ids[k])
  {
    var requested := CollectRequested(global, groups);
    outcome := VerifyIdentifiers(ledger, requested, ids);
    VerifiedExactlyWhenAllPass(ledger, global, groups, ids, outcome);
  }

  lemma VerifiedExactlyWhenAllPass(
    ledger: Ledger, global: Option<Interval>, groups: seq<Group>, ids: seq<Identifier>, outcome: Outcome)
    requires IsOutcome(ledger, Requested(global, groups), ids, outcome)
    ensures outcome.Verified? <==> forall k :: 0 <= k < |ids| ==> Passes(ledger, global, groups, ids[k])
  {
    forall k | 0 <= k < |ids|
      ensures StillInForce(ledger, Requested(global, groups), ids[k]) <==> Passes(ledger, global, groups, ids[k])
    {
      PassesExactlyWhenStillInForce(ledger, global, groups, ids[k]);
    }
  }

  lemma NextOverride(requested: seq<(Interval, Restriction)>, ids: seq<Identifier>, i: nat)
    requires i < |ids|
    ensures Overrides(requested, ids[..i + 1]) ==
            Overrides(requested, ids[..i]) + (if Outdated(requested, ids[i]) then [OverrideOf(requested, ids[i])] else [])
  {
    assert ids[..i + 1][..i] == ids[..i];
  }

  lemma InForceIsDecidable(ledger: Ledger, requested: seq<(Interval, Restriction)>, id: Identifier)
    requires PublishedAll(ledger) && Outdated(requested, id)
    ensures var list := At(HistoryOf(ledger, id), RequestedFrom(requested, id).value);
            StillInForce(ledger, requested, id) <==> list.Some? && list.value.timestamp == id.timestamp.value
  {
    AtAnswersExactlyTheCurrentList(HistoryOf(ledger, id), id.timestamp.value, RequestedFrom(requested, id).value);
  }

  /** What an override asserts is true: the list it substitutes is the one in force at the requested time, so every
      credential of the registry is revoked at that time if and only if it is revoked in the substituted list. */
  lemma OverridesAreSound(ledger: Ledger, requested: seq<(Interval, Restriction)>, ids: seq<Identifier>, o: Override)
    requires PublishedAll(ledger) && o in Overrides(requested, ids)
    requires forall k :: 0 <= k < |ids| ==> StillInForce(ledger, requested, ids[k])
    ensures o.revRegId in ledger && o.listTimestamp < o.requestedFrom
    ensures At(ledger[o.revRegId], o.requestedFrom) == At(ledger[o.revRegId], o.listTimestamp)
    ensures At(ledger[o.revRegId], o.requestedFrom).Some?
            && At(ledger[o.revRegId], o.requestedFrom).value.timestamp == o.listTimestamp
  {
    OverrideHasIdentifier(requested, ids, o);
    var k :| 0 <= k < |ids| && Outdated(requested, ids[k]) && o == OverrideOf(requested, ids[k]);
    assert StillInForce(ledger, requested, ids[k]);
    AtAnswersExactlyTheCurrentList(HistoryOf(ledger, ids[k]), o.listTimestamp, o.requestedFrom);
  }

  lemma {:induction false} OverrideHasIdentifier(
      requested: seq<(Interval, Restriction)>, ids: seq<Identifier>, o: Override)
    ensures o in Overrides(requested, ids) <==>
      exists k :: 0 <= k < |ids| && Outdated(requested, ids[k]) && o == OverrideOf(requested, ids[k])
  {
    if ids != [] {
      var front := ids[..|ids| - 1];
      OverrideHasIdentifier(requested, front, o);
      assert forall k :: 0 <= k < |front| ==> front[k] == ids[k];
      if o in Overrides(requested, front) {
        var k :| 0 <= k < |front| && Outdated(requested, front[k]) && o == OverrideOf(requested, front[k]);
        assert Outdated(requested, ids[k]) && o == OverrideOf(requested, ids[k]);
      }
    }
  }

  // ---- The same rule in getRevocationMetadata ----

  datatype Metadata = Metadata(updatedTimestamp: nat, list: StatusList, override: Option<Override>) | MetadataThrew

  function GetRevocationMetadata(
      ledger: Ledger, revRegId: string, interval: Interval, timestamp: Option<nat>, mustHaveTimestamp: bool): Metadata
  {
    if revRegId == "" || (mustHaveTimestamp && !Truthy(timestamp)) || !BestPractice(interval) || revRegId !in ledger
    then MetadataThrew
    else
      var toFetch: nat := timestamp.GetOr(interval.to.value);
      var list := At(ledger[revRegId], toFetch);
      if toFetch == 0 || list.None? then MetadataThrew
      else
        var updated: nat := timestamp.GetOr(list.value.timestamp);
        if Truthy(interval.from) && interval.from.value > toFetch then
          var vdr := At(ledger[revRegId], interval.from.value);
          if vdr.Some? && vdr.value.timestamp == toFetch
          then Metadata(updated, list.value, Some(Override(toFetch, interval.from.value, revRegId)))
          else MetadataThrew
        else Metadata(updated, list.value, None)
  }

  /** For a timestamp that is given, getRevocationMetadata succeeds with an override exactly when the interval follows
      RFC 0441 and the verifier accepts the identifier as outdated, and with the same override. */
  lemma BothImplementationsAgree(ledger: Ledger, id: Identifier, r: Restriction, interval: Interval, must: bool)
    requires PublishedAll(ledger) && Related(r, id)
    requires id.revRegId.Some? && id.revRegId.value in ledger
    requires Outdated([(interval, r)], id)
    ensures var m := GetRevocationMetadata(ledger, id.revRegId.value, interval, id.timestamp, must);
            && (m.Metadata? <==> BestPractice(interval) && StillInForce(ledger, [(interval, r)], id))
            && (m.Metadata? ==> Overrides([(interval, r)], [id]) == [m.override.GetOr(Override(0, 0, ""))]
                                && m.override.Some? && m.updatedTimestamp == id.timestamp.value
                                && m.list.timestamp == id.timestamp.value)
  {
    InForceIsDecidable(ledger, [(interval, r)], id);
    AtAnswersExactlyTheCurrentList(ledger[id.revRegId.value], id.timestamp.value, interval.from.value);
    assert [id][..0] == [];
    assert Overrides([(interval, r)], [id][..0]) == [];
  }

  /** For an identifier that is not outdated it succeeds, without an override, exactly when the interval follows RFC 0441
      and there is a list to fetch. */
  lemma UpToDateNeedsNoOverride(ledger: Ledger, id: Identifier, r: Restriction, interval: Interval)
    requires PublishedAll(ledger) && Related(r, id) && Truthy(id.timestamp)
    requires id.revRegId.Some? && id.revRegId.value in ledger && id.revRegId.value != ""
    requires !Outdated([(interval, r)], id)
    ensures var m := GetRevocationMetadata(ledger, id.revRegId.value, interval, id.timestamp, true);
            && (m.Metadata? <==> BestPractice(interval) && At(ledger[id.revRegId.value], id.timestamp.value).Some?)
            && (m.Metadata? ==> m.override.None? && Overrides([(interval, r)], [id]) == [])
  {
    assert RequestedFrom([(interval, r)], id) == interval.from;
    assert [id][..0] == [];
    assert Overrides([(interval, r)], [id][..0]) == [];
  }

  const TWICE: History := [StatusList(5, [false]), StatusList(15, [false])]

  /** Without a timestamp it takes the list in force at the interval's `to`, unless a timestamp is demanded; and the number
      zero is no timestamp. */
  lemma MissingTimestampTakesTheLatest(ledger: Ledger, revRegId: string, interval: Interval, must: bool)
    ensures GetRevocationMetadata(ledger, revRegId, interval, Some(0), must).MetadataThrew?
    ensures var m := GetRevocationMetadata(ledger, revRegId, interval, None, must);
      && (m.Metadata? <==> revRegId != "" && !must && BestPractice(interval) && revRegId in ledger
                           && At(ledger[revRegId], interval.to.value).Some?)
      && (m.Metadata? ==> At(ledger[revRegId], interval.to.value) == Some(m.list)
                          && m.updatedTimestamp == m.list.timestamp && m.override.None?)
  {
  }

  /** An interval of more than one moment: the verifier accepts the timestamp of the list in force throughout, and
      getRevocationMetadata refuses the interval. */
  lemma WideIntervalIsRefusedOnce(credDefId: string)
    ensures var interval, r := Interval(Some(10), Some(12)), Restriction(None, Some(credDefId), None);
      var ledger, id := map["r" := TWICE], Identifier("s", credDefId, Some("r"), Some(5));
      && PublishedAll(ledger)
      && IsOutcome(ledger, [(interval, r)], [id], Verified([Override(5, 10, "r")]))
      && GetRevocationMetadata(ledger, "r", interval, id.timestamp, true).MetadataThrew?
  {
    var interval, r := Interval(Some(10), Some(12)), Restriction(None, Some(credDefId), None);
    var ledger, id := map["r" := TWICE], Identifier("s", credDefId, Some("r"), Some(5));
    assert TWICE[0].timestamp == 5 && TWICE[1].timestamp == 15;
    assert Overrides([(interval, r)], [id][..0]) == [];
    assert StillInForce(ledger, [(interval, r)], id);
  }

  // ---- The whole pipeline: timestamps chosen by the holder, checked by the verifier ----

  /** The identifier's timestamp is the one the holder chose for this interval. */
  predicate Honest(ledger: Ledger, id: Identifier, interval: Interval, index: nat) {
    && id.revRegId.GetOr("") != "" && id.revRegId.value in ledger
    && var s := GetRevocationStatus(ledger[id.revRegId.value], Some(interval), Some(index));
       s.Status? && id.timestamp == Some(s.timestamp)
  }

  /** No list was published after the interval the holder answered, up to the `from` of the first restriction that asks
      for the identifier. */
  ghost predicate NothingNewer(
    ledger: Ledger, global: Option<Interval>, groups: seq<Group>, id: Identifier, interval: Interval)
    requires interval.to.Some?
  {
    forall g: nat, r: nat, k :: FirstAskingFor(global, groups, g, r, id) && 0 <= k < |HistoryOf(ledger, id)|
                                && Asked(global, groups[g]).value.from.Some? ==>
      !(interval.to.value < HistoryOf(ledger, id)[k].timestamp <= Asked(global, groups[g]).value.from.value)
  }

  /** An honest timestamp passes exactly when no list was published between the end of the interval it was chosen for
      and the `from` of the first restriction that asks for it; in particular when that is the `from` of the same
      interval. */
  lemma HonestTimestampPassesExactlyWhen(
    ledger: Ledger, global: Option<Interval>, groups: seq<Group>, id: Identifier, interval: Interval, index: nat)
    requires PublishedAll(ledger) && Honest(ledger, id, interval, index)
    ensures interval.to.Some?
    ensures StillInForce(ledger, Requested(global, groups), id) <==> NothingNewer(ledger, global, groups, id, interval)
    ensures (forall g: nat, r: nat :: FirstAskingFor(global, groups, g, r, id) ==> Asked(global, groups[g]) == Some(interval)) ==>
      StillInForce(ledger, Requested(global, groups), id)
  {
    var h, t := HistoryOf(ledger, id), id.timestamp.value;
    StatusNamesAPublishedList(h, Some(interval), Some(index));
    AnswerIsCurrent(h, interval.to.value);
    assert CurrentUntil(h, t, interval.to.value);
    PassesExactlyWhenStillInForce(ledger, global, groups, id);
  }

  // An honest timestamp names a list that was published before it, so there is one at any later time.
  lemma HonestTimestampNamesAList(
    ledger: Ledger, requested: seq<(Interval, Restriction)>, id: Identifier, interval: Interval, index: nat)
    requires PublishedAll(ledger) && Honest(ledger, id, interval, index)
    ensures !NoListInForce(ledger, requested, id)
  {
    var h := HistoryOf(ledger, id);
    StatusNamesAPublishedList(h, Some(interval), Some(index));
    AtIsLatest(h, id.timestamp.value);
    var i: nat :| IsLatest(h, i, id.timestamp.value);
    if Outdated(requested, id) { AtIsLatest(h, RequestedFrom(requested, id).value); }
  }

  /** The outcome for a proof whose timestamps were all chosen honestly: it is never an exception, and it is verified
      exactly when for each identifier no list was published between the end of its interval and the `from` that the
      request's groups make the verifier look at. */
  lemma HonestProofVerifiesExactlyWhen(
    ledger: Ledger, global: Option<Interval>, groups: seq<Group>, ids: seq<Identifier>, intervals: seq<Interval>,
    indices: seq<nat>, outcome: Outcome)
    requires PublishedAll(ledger) && |ids| == |intervals| == |indices|
    requires forall k :: 0 <= k < |ids| ==> Honest(ledger, ids[k], intervals[k], indices[k])
    requires IsOutcome(ledger, Requested(global, groups), ids, outcome)
    ensures forall k :: 0 <= k < |ids| ==> intervals[k].to.Some?
    ensures outcome == (
      if forall k :: 0 <= k < |ids| ==> intervals[k].to.Some? && NothingNewer(ledger, global, groups, ids[k], intervals[k])
      then Verified(Overrides(Requested(global, groups), ids)) else NotVerified)
  {
    var requested := Requested(global, groups);
    forall k | 0 <= k < |ids|
      ensures intervals[k].to.Some? && !NoListInForce(ledger, requested, ids[k])
      ensures StillInForce(ledger, requested, ids[k]) <==> NothingNewer(ledger, global, groups, ids[k], intervals[k])
    {
      HonestTimestampPassesExactlyWhen(ledger, global, groups, ids[k], intervals[k], indices[k]);
      HonestTimestampNamesAList(ledger, requested, ids[k], intervals[k], indices[k]);
    }
  }

  const EARLY: Interval := Interval(Some(10), Some(10))
  const LATE: Interval := Interval(Some(20), Some(20))
  /** Two groups about one credential definition that ask for different times: the honest answer to the second is
      judged by the `from` of the first, and refused. */
  lemma HonestAnswerIsRefused(credDefId: string)
    ensures var restriction := Restriction(None, Some(credDefId), None);
      var groups := [Group(Some(LATE), [restriction]), Group(Some(EARLY), [restriction])];
      var ledger := map["r" := TWICE];
      var id := Identifier("s", credDefId, Some("r"), Some(5));
      && PublishedAll(ledger) && Honest(ledger, id, EARLY, 0)
      && IsOutcome(ledger, Requested(None, groups), [id], NotVerified)
  {
    var restriction := Restriction(None, Some(credDefId), None);
    var groups := [Group(Some(LATE), [restriction]), Group(Some(EARLY), [restriction])];
    var ledger, id := map["r" := TWICE], Identifier("s", credDefId, Some("r"), Some(5));
    assert TWICE[..1] == [StatusList(5, [false])] && TWICE[1].timestamp == 15;
    assert groups[..1] == [groups[0]] && groups[..1][..0] == [];
    assert GroupRestrictions(None, groups[0]) == [(LATE, restriction)];
    assert Requested(None, groups[..1][..0]) == [];
    assert Requested(None, groups[..1]) == [(LATE, restriction)];
    assert Requested(None, groups)[0] == (LATE, restriction);
    assert RequestedFrom(Requested(None, groups), id) == Some(20);
    assert HistoryOf(ledger, id)[1].timestamp == 15;
    assert !StillInForce(ledger, Requested(None, groups), id);
    HonestTimestampNamesAList(ledger, Requested(None, groups), id, EARLY, 0);
    assert FirstFailure(ledger, Requested(None, groups), [id], 0);
  }
}
