/** First messages of unknown peers: the connection the receiver creates for one, alone and in every interleaving. */
module FirstMessage {
  import opened Wrappers

  /** A DID: a did:peer:4 in short form, or in long form with its document, or any other DID. */
  datatype Did = Peer4(hash: string, document: Option<string>) | OtherDid(did: string)

  function ShortForm(d: Did): Option<Did> {
    if d.Peer4? then Some(Peer4(d.hash, None)) else None
  }

  predicate AreEquivalentForms(a: Did, b: Did) {
    a == b || (ShortForm(a).Some? && ShortForm(a) == ShortForm(b))
  }

  function Canonical(d: Did): Did {
    if ShortForm(d).Some? then ShortForm(d).value else d
  }

  /** Two DIDs are equivalent forms exactly when they are equal or both are did:peer:4 with one hash; so they are exactly
      when their canonical forms are equal. */
  lemma EquivalenceIsCanonicalEquality(a: Did, b: Did)
    ensures AreEquivalentForms(a, b) <==> a == b || (a.Peer4? && b.Peer4? && a.hash == b.hash)
    ensures AreEquivalentForms(a, b) <==> Canonical(a) == Canonical(b)
  {
  }

  /** The ids that are derived by hashing a name, as the names they are derived from. */
  datatype ConnectionId =
    | OfPair(our: Did, their: Did)
    | OfId(previous: ConnectionId)
    | Generated(uuid: string)

  function FirstMessageConnectionId(our: Did, their: Did): ConnectionId {
    OfPair(Canonical(our), Canonical(their))
  }

  datatype Connection = Connection(id: ConnectionId, did: Option<Did>, theirDid: Option<Did>)

  predicate IsOn(c: Connection, their: Did) {
    c.theirDid.Some? && AreEquivalentForms(c.theirDid.value, their)
  }

  // ---- The chain of ids of one pair ----

  function Origin(id: ConnectionId): ConnectionId {
    if id.OfId? then Origin(id.previous) else id
  }

  function Depth(id: ConnectionId): nat {
    if id.OfId? then 1 + Depth(id.previous) else 0
  }

  predicate Before(a: ConnectionId, b: ConnectionId) {
    b.OfId? && (a == b.previous || Before(a, b.previous))
  }

  lemma {:induction false} ChainIsTotal(a: ConnectionId, b: ConnectionId)
    requires Origin(a) == Origin(b)
    ensures a == b || Before(a, b) || Before(b, a)
    decreases Depth(a) + Depth(b)
  {
    if a.OfId? && b.OfId? {
      ChainIsTotal(a.previous, b.previous);
      if Before(a.previous, b.previous) {
        NextIsBefore(a, b);
      } else if Before(b.previous, a.previous) {
        NextIsBefore(b, a);
      }
    } else if a.OfId? {
      ChainIsTotal(a.previous, b);
    } else if b.OfId? {
      ChainIsTotal(a, b.previous);
    }
  }

  lemma {:induction false} NextIsBefore(a: ConnectionId, b: ConnectionId)
    requires a.OfId? && b.OfId? && Before(a.previous, b.previous)
    ensures Before(a, b)
    decreases b
  {
    if b.previous.previous != a.previous {
      NextIsBefore(a, b.previous);
    }
  }

  lemma {:induction false} BeforeIsShallower(a: ConnectionId, b: ConnectionId)
    requires Before(a, b)
    ensures Depth(a) < Depth(b) && Origin(a) == Origin(b)
  {
    if a != b.previous {
      BeforeIsShallower(a, b.previous);
    }
  }

  // ---- One call on its own ----

  /** Every id before this one on the chain is taken by a connection that moved off the pair. */
  ghost predicate AllMovedBefore(records: map<ConnectionId, Connection>, id: ConnectionId, their: Did) {
    forall k :: Before(k, id) ==> k in records && !IsOn(records[k], their)
  }

  /** The ids of stored connections that are not above this one on its chain. */
  function Unvisited(records: map<ConnectionId, Connection>, id: ConnectionId): set<ConnectionId> {
    set k | k in records && Depth(k) >= Depth(id)
  }

  /** The first id from here on along the chain that is free, or taken by a connection that is on the pair. */
  function FirstUsable(records: map<ConnectionId, Connection>, id: ConnectionId, their: Did): ConnectionId
    decreases Unvisited(records, id)
  {
    if id in records && !IsOn(records[id], their) then
      assert id in Unvisited(records, id) && id !in Unvisited(records, OfId(id));
      assert Unvisited(records, OfId(id)) <= Unvisited(records, id);
      FirstUsable(records, OfId(id), their)
    else id
  }

  lemma {:induction false} FirstUsableIsOnTheChain(records: map<ConnectionId, Connection>, id: ConnectionId, their: Did)
    requires AllMovedBefore(records, id, their)
    ensures var usable := FirstUsable(records, id, their);
      && Origin(usable) == Origin(id) && Depth(usable) >= Depth(id) && AllMovedBefore(records, usable, their)
      && (usable in records ==> IsOn(records[usable], their))
    decreases Unvisited(records, id)
  {
    if id in records && !IsOn(records[id], their) {
      assert id in Unvisited(records, id) && id !in Unvisited(records, OfId(id));
      assert Unvisited(records, OfId(id)) <= Unvisited(records, id);
      FirstUsableIsOnTheChain(records, OfId(id), their);
    }
  }

  /** Whether a storage operation fails other than for an id that is taken, by the number of operations before it. */
  type StorageFails = nat -> bool

  datatype Saved = Stored | Duplicate | Failed

  datatype Reply = Created(connection: Connection) | Existing(connection: Connection) | StorageFailed

  class MessageReceiver {
    var records: map<ConnectionId, Connection>
    var discarded: set<Did>

    constructor ()
      ensures records == map[] && discarded == {}
    {
      records := map[];
      discarded := {};
    }

    /** Saves a connection unless its id is taken or the storage fails. */
    method Save(c: Connection, fails: bool) returns (saved: Saved)
      modifies this`records
      ensures saved == if fails then Failed else if c.id in old(records) then Duplicate else Stored
      ensures records == if saved.Stored? then old(records)[c.id := c] else old(records)
    {
      if fails { return Failed; }
      if c.id in records { return Duplicate; }
      records := records[c.id := c];
      return Stored;
    }

    /** Terminates on every store. The result is the first connection on the chain that is on the pair or was not taken
        yet, and the rotated DID is the created connection's or is discarded; but if a storage operation fails on the way
        there, nothing changes and the rotated DID is not discarded either. */
    method CreateFirstMessageConnection(our: Did, their: Did, rotated: Option<Did>, fails: StorageFails)
      returns (reply: Reply)
      modifies this
      ensures var id := FirstUsable(old(records), FirstMessageConnectionId(our, their), their);
        && Origin(id) == FirstMessageConnectionId(our, their) && AllMovedBefore(old(records), id, their)
        && (reply.StorageFailed? <==>
              exists n :: 0 <= n < 2 * Depth(id) + (if id in old(records) then 2 else 1) && fails(n))
        && (reply.StorageFailed? ==> records == old(records) && discarded == old(discarded))
        && (reply.Created? ==>
              && id !in old(records) && reply.connection == Connection(id, Some(rotated.GetOr(our)), Some(their))
              && records == old(records)[id := reply.connection] && discarded == old(discarded))
        && (reply.Existing? ==>
              && id in old(records) && reply.connection == old(records)[id] && IsOn(reply.connection, their)
              && records == old(records)
              && discarded == old(discarded) + (if rotated.Some? then {rotated.value} else {}))
    {
      var first := FirstMessageConnectionId(our, their);
      FirstUsableIsOnTheChain(records, first, their);
      var id, calls := first, 0;
      var did := if rotated.Some? then rotated.value else our;
      while true
        invariant records == old(records) && discarded == old(discarded)
        invariant FirstUsable(records, id, their) == FirstUsable(records, first, their)
        invariant AllMovedBefore(records, id, their)
        invariant calls == 2 * Depth(id) && forall n :: 0 <= n < calls ==> !fails(n)
        decreases Unvisited(records, id)
      {
        FirstUsableIsOnTheChain(records, id, their);
        var connection := Connection(id, Some(did), Some(their));
        var saved := Save(connection, fails(calls));
        if saved.Stored? { return Created(connection); }
        if saved.Failed? { return StorageFailed; }
        if !IsOn(records[id], their) { FirstUsableIsOnTheChain(records, OfId(id), their); }
        if fails(calls + 1) { return StorageFailed; }
        var existing := records[id];
        if existing.theirDid.Some? && AreEquivalentForms(existing.theirDid.value, their) {
          if rotated.Some? { discarded := discarded + {rotated.value}; }
          return Existing(existing);
        }
        assert id in Unvisited(records, id) && id !in Unvisited(records, OfId(id));
        assert Unvisited(records, OfId(id)) <= Unvisited(records, id);
        id, calls := OfId(id), calls + 2;
      }
    }
  }

  // ---- Every interleaving ----

  datatype Phase =
    | Saving(id: ConnectionId)
    | Loading(id: ConnectionId)
    | Discarding(existing: Connection)
    | Returned(connection: Connection, created: bool)
    | Threw

  /** A call for a first message from `their` to `our`, and the DID it rotated to, if it did. */
  datatype Call = Call(our: Did, their: Did, rotated: Option<Did>, phase: Phase)

  /** `left` records, for each connection, the DIDs of the peer it moved off, in canonical form. */
  datatype World = World(
    records: map<ConnectionId, Connection>,
    left: map<ConnectionId, set<Did>>,
    calls: seq<Call>,
    discarded: set<Did>)

  /** `Progress` runs a call up to its next await; `stored` is whether the storage works. `Move` gives a connection
      another DID of the peer, or none, but never one it moved off before. */
  datatype Step =
    | Receive(our: Did, their: Did, rotated: Option<Did>)
    | Progress(call: nat, stored: bool)
    | Move(id: ConnectionId, theirDid: Option<Did>)
    | Generate(uuid: string, did: Option<Did>, theirDid: Option<Did>)

  const EMPTY: World := World(map[], map[], [], {})

  function SetPhase(w: World, i: nat, phase: Phase): World
    requires i < |w.calls|
  {
    w.(calls := w.calls[i := w.calls[i].(phase := phase)])
  }

  function NewConnection(c: Call, id: ConnectionId): Connection {
    Connection(id, Some(c.rotated.GetOr(c.our)), Some(c.their))
  }

  function ProgressCall(w: World, i: nat, stored: bool): World
    requires i < |w.calls|
  {
    var c := w.calls[i];
    match c.phase
    case Saving(id) =>
      if !stored then SetPhase(w, i, Threw)
      else if id in w.records then SetPhase(w, i, Loading(id))
      else
        SetPhase(w, i, Returned(NewConnection(c, id), true))
          .(records := w.records[id := NewConnection(c, id)], left := w.left[id := {}])
    case Loading(id) =>
      if !stored || id !in w.records then SetPhase(w, i, Threw)
      else
        var existing := w.records[id];
        if !IsOn(existing, c.their) then SetPhase(w, i, Saving(OfId(existing.id)))
        else if c.rotated.Some? then SetPhase(w, i, Discarding(existing))
        else SetPhase(w, i, Returned(existing, false))
    case Discarding(existing) =>
      SetPhase(w, i, Returned(existing, false)).(discarded := w.discarded + {c.rotated.GetOr(c.our)})
    case Returned(_, _) => w
    case Threw => w
  }

  function MoveConnection(w: World, id: ConnectionId, theirDid: Option<Did>): World {
    if id !in w.records || id !in w.left then w
    else
      var current := w.records[id].theirDid;
      var left := w.left[id] + (if current.Some? then {Canonical(current.value)} else {});
      if theirDid.Some? && current.Some? && Canonical(theirDid.value) == Canonical(current.value) then
        w.(records := w.records[id := w.records[id].(theirDid := theirDid)])
      else if theirDid.Some? && Canonical(theirDid.value) in left then w
      else
        w.(records := w.records[id := w.records[id].(theirDid := theirDid)], left := w.left[id := left])
  }

  function Next(w: World, step: Step): World {
    match step
    case Receive(our, their, rotated) =>
      w.(calls := w.calls + [Call(our, their, rotated, Saving(FirstMessageConnectionId(our, their)))])
    case Progress(i, stored) => if i < |w.calls| then ProgressCall(w, i, stored) else w
    case Move(id, theirDid) => MoveConnection(w, id, theirDid)
    case Generate(uuid, did, theirDid) =>
      var id := Generated(uuid);
      if id in w.records then w
      else w.(records := w.records[id := Connection(id, did, theirDid)], left := w.left[id := {}])
  }

  function Run(steps: seq<Step>): World {
    if steps == [] then EMPTY else Next(Run(steps[..|steps| - 1]), steps[|steps| - 1])
  }

  // Every id before this one on the chain is taken by a connection that left the peer's DID for good.
  ghost predicate AllLeftBefore(w: World, id: ConnectionId, their: Did) {
    forall k :: Before(k, id) ==> k in w.records && k in w.left && Canonical(their) in w.left[k]
  }

  ghost predicate CallInv(w: World, c: Call) {
    match c.phase
    case Saving(id) =>
      Origin(id) == FirstMessageConnectionId(c.our, c.their) && AllLeftBefore(w, id, c.their)
    case Loading(id) =>
      && Origin(id) == FirstMessageConnectionId(c.our, c.their) && AllLeftBefore(w, id, c.their)
      && id in w.records
    case Discarding(existing) => c.rotated.Some? && IsOn(existing, c.their) && existing.id in w.records
    case Returned(connection, created) =>
      && connection.id in w.records
      && (created ==> connection.did == w.records[connection.id].did == Some(c.rotated.GetOr(c.our)))
      && (!created && c.rotated.Some? ==> c.rotated.value in w.discarded)
      && (!created ==> IsOn(connection, c.their))
    case Threw => true
  }

  predicate OnCanonical(c: Connection, their: Did) {
    c.theirDid.Some? && Canonical(c.theirDid.value) == their
  }

  function CreatedId(c: Call): Option<ConnectionId> {
    if c.phase.Returned? && c.phase.created then Some(c.phase.connection.id) else None
  }

  ghost predicate RecordsInv(w: World) {
    && w.records.Keys == w.left.Keys
    && (forall id :: id in w.records ==> w.records[id].id == id)
    && (forall id :: id in w.records && w.records[id].theirDid.Some? ==>
          Canonical(w.records[id].theirDid.value) !in w.left[id])
    && (forall id :: id in w.records && Origin(id).OfPair? ==> AllLeftBefore(w, id, Origin(id).their))
    && (forall id :: id in w.records && Origin(id).OfPair? ==>
          OnCanonical(w.records[id], Origin(id).their) || Origin(id).their in w.left[id])
  }

  ghost predicate CallsInv(w: World) {
    forall i :: 0 <= i < |w.calls| ==> CallInv(w, w.calls[i])
  }

  ghost predicate CreatedInv(w: World) {
    forall i, j :: 0 <= i < j < |w.calls| && CreatedId(w.calls[i]).Some? ==>
      CreatedId(w.calls[i]) != CreatedId(w.calls[j])
  }

  ghost predicate Inv(w: World) {
    RecordsInv(w) && CallsInv(w) && CreatedInv(w)
  }

  // What was taken stays taken, what was left stays left.
  ghost predicate Grows(w: World, w': World) {
    && w.records.Keys <= w'.records.Keys
    && (forall id :: id in w.records ==> w'.records[id].did == w.records[id].did)
    && w.left.Keys <= w'.left.Keys
    && (forall id :: id in w.left ==> w.left[id] <= w'.left[id])
    && w.discarded <= w'.discarded
  }

  lemma GrowthKeepsLeft(w: World, w': World, id: ConnectionId, their: Did)
    requires Grows(w, w') && AllLeftBefore(w, id, their)
    ensures AllLeftBefore(w', id, their)
  {
  }

  lemma GrowthKeepsCall(w: World, w': World, c: Call)
    requires Grows(w, w') && CallInv(w, c)
    ensures CallInv(w', c)
  {
    if c.phase.Saving? || c.phase.Loading? { GrowthKeepsLeft(w, w', c.phase.id, c.their); }
  }

  lemma MoveGrows(w: World, id: ConnectionId, theirDid: Option<Did>)
    requires RecordsInv(w)
    ensures Grows(w, MoveConnection(w, id, theirDid))
  {
  }

  lemma ProgressGrows(w: World, i: nat, stored: bool)
    requires RecordsInv(w) && i < |w.calls|
    ensures Grows(w, ProgressCall(w, i, stored))
  {
  }

  lemma NextGrows(w: World, step: Step)
    requires Inv(w)
    ensures Grows(w, Next(w, step))
  {
    match step
    case Progress(i, stored) => if i < |w.calls| { ProgressGrows(w, i, stored); }
    case Move(id, theirDid) => MoveGrows(w, id, theirDid);
    case _ =>
  }

  // A connection's DID is not one it left.
  ghost predicate OffWhatItLeft(w: World, id: ConnectionId)
    requires id in w.records && id in w.left
  {
    w.records[id].theirDid.Some? ==> Canonical(w.records[id].theirDid.value) !in w.left[id]
  }

  lemma MovedIsOffWhatItLeft(w: World, id: ConnectionId, theirDid: Option<Did>)
    requires id in w.records && id in w.left && OffWhatItLeft(w, id)
    ensures var w' := MoveConnection(w, id, theirDid);
      && w'.records.Keys == w.records.Keys && w'.left.Keys == w.left.Keys && w'.records[id].id == w.records[id].id
      && OffWhatItLeft(w', id)
  {
  }

  lemma MoveTouchesOne(w: World, id: ConnectionId, theirDid: Option<Did>, k: ConnectionId)
    requires k in w.records && k in w.left && k != id
    ensures var w' := MoveConnection(w, id, theirDid);
      k in w'.records && k in w'.left && w'.records[k] == w.records[k] && w'.left[k] == w.left[k]
  {
  }

  lemma MoveStaysOffWhatWasLeft(w: World, id: ConnectionId, theirDid: Option<Did>)
    requires RecordsInv(w)
    ensures var w' := MoveConnection(w, id, theirDid);
      && w'.records.Keys == w.records.Keys == w'.left.Keys
      && forall k :: k in w'.records ==> w'.records[k].id == k && OffWhatItLeft(w', k)
  {
    var w' := MoveConnection(w, id, theirDid);
    if id in w.records { MovedIsOffWhatItLeft(w, id, theirDid); }
    forall k | k in w'.records ensures w'.records[k].id == k && OffWhatItLeft(w', k) {
      if k != id { MoveTouchesOne(w, id, theirDid, k); }
    }
  }

  lemma MoveKeepsOnOrLeft(w: World, id: ConnectionId, theirDid: Option<Did>, their: Did)
    requires RecordsInv(w) && id in w.records && (OnCanonical(w.records[id], their) || their in w.left[id])
    ensures var w' := MoveConnection(w, id, theirDid); OnCanonical(w'.records[id], their) || their in w'.left[id]
  {
  }

  lemma MoveKeepsRecords(w: World, id: ConnectionId, theirDid: Option<Did>)
    requires Inv(w)
    ensures RecordsInv(MoveConnection(w, id, theirDid))
  {
    var w' := MoveConnection(w, id, theirDid);
    MoveGrows(w, id, theirDid);
    KeepRecords(w, w');
    MoveStaysOffWhatWasLeft(w, id, theirDid);
    assert forall k :: k in w'.records ==> OffWhatItLeft(w', k);
    forall k | k in w'.records && Origin(k).OfPair?
      ensures OnCanonical(w'.records[k], Origin(k).their) || Origin(k).their in w'.left[k]
    {
      if k == id {
        MoveKeepsOnOrLeft(w, id, theirDid, Origin(k).their);
      } else {
        assert w'.records[k] == w.records[k] && w'.left[k] == w.left[k];
      }
    }
  }

  lemma MoveKeepsInv(w: World, id: ConnectionId, theirDid: Option<Did>)
    requires Inv(w)
    ensures Inv(MoveConnection(w, id, theirDid))
  {
    var w' := MoveConnection(w, id, theirDid);
    NextGrows(w, Move(id, theirDid));
    MoveKeepsRecords(w, id, theirDid);
    KeepCalls(w, w');
    assert w'.calls == w.calls;
  }

  lemma KeepRecords(w: World, w': World)
    requires Inv(w) && Grows(w, w')
    ensures forall id :: id in w.records && Origin(id).OfPair? ==> AllLeftBefore(w', id, Origin(id).their)
  {
    forall id | id in w.records && Origin(id).OfPair? ensures AllLeftBefore(w', id, Origin(id).their) {
      GrowthKeepsLeft(w, w', id, Origin(id).their);
    }
  }

  lemma KeepCalls(w: World, w': World)
    requires Inv(w) && Grows(w, w')
    ensures forall i :: 0 <= i < |w.calls| ==> CallInv(w', w.calls[i])
  {
    forall i | 0 <= i < |w.calls| ensures CallInv(w', w.calls[i]) {
      GrowthKeepsCall(w, w', w.calls[i]);
    }
  }

  lemma SavingKeepsRecords(w: World, i: nat, stored: bool)
    requires Inv(w) && i < |w.calls| && w.calls[i].phase.Saving?
    ensures RecordsInv(ProgressCall(w, i, stored)) && CallInv(ProgressCall(w, i, stored), ProgressCall(w, i, stored).calls[i])
  {
    var w', c := ProgressCall(w, i, stored), w.calls[i];
    assert CallInv(w, c);
    NextGrows(w, Progress(i, stored));
    KeepRecords(w, w');
    GrowthKeepsLeft(w, w', c.phase.id, c.their);
  }

  lemma CreatedIdsAreTaken(w: World, k: nat)
    requires Inv(w) && k < |w.calls| && CreatedId(w.calls[k]).Some?
    ensures CreatedId(w.calls[k]).value in w.records
  {
    assert CallInv(w, w.calls[k]);
  }

  lemma SavingKeepsInv(w: World, i: nat, stored: bool)
    requires Inv(w) && i < |w.calls| && w.calls[i].phase.Saving?
    ensures Inv(ProgressCall(w, i, stored))
  {
    var w' := ProgressCall(w, i, stored);
    NextGrows(w, Progress(i, stored));
    SavingKeepsRecords(w, i, stored);
    KeepCalls(w, w');
    assert forall k :: 0 <= k < |w.calls| && k != i ==> w'.calls[k] == w.calls[k];
    forall k | 0 <= k < |w.calls| && CreatedId(w.calls[k]).Some? ensures CreatedId(w.calls[k]).value in w.records {
      CreatedIdsAreTaken(w, k);
    }
  }

  lemma LoadingKeepsItsCall(w: World, i: nat, stored: bool)
    requires Inv(w) && i < |w.calls| && (w.calls[i].phase.Loading? || w.calls[i].phase.Discarding?)
    ensures CallInv(ProgressCall(w, i, stored), ProgressCall(w, i, stored).calls[i])
  {
    var w', c := ProgressCall(w, i, stored), w.calls[i];
    assert CallInv(w, c) && w'.records == w.records && w'.left == w.left;
    if c.phase.Loading? && stored && !IsOn(w.records[c.phase.id], c.their) {
      EquivalenceIsForAll(w.records[c.phase.id], c.their);
      assert AllLeftBefore(w, OfId(c.phase.id), c.their);
    }
  }

  lemma LoadingChangesOneCall(w: World, i: nat, stored: bool)
    requires i < |w.calls| && (w.calls[i].phase.Loading? || w.calls[i].phase.Discarding?)
    ensures var w' := ProgressCall(w, i, stored);
      && w'.records == w.records && w'.left == w.left && w.discarded <= w'.discarded && |w'.calls| == |w.calls|
      && (forall k :: 0 <= k < |w.calls| && k != i ==> w'.calls[k] == w.calls[k]) && CreatedId(w'.calls[i]).None?
  {
  }

  lemma LoadingKeepsInv(w: World, i: nat, stored: bool)
    requires Inv(w) && i < |w.calls| && (w.calls[i].phase.Loading? || w.calls[i].phase.Discarding?)
    ensures Inv(ProgressCall(w, i, stored))
  {
    var w' := ProgressCall(w, i, stored);
    LoadingChangesOneCall(w, i, stored);
    KeepRecords(w, w');
    KeepCalls(w, w');
    LoadingKeepsItsCall(w, i, stored);
  }

  lemma ProgressKeepsInv(w: World, i: nat, stored: bool)
    requires Inv(w) && i < |w.calls|
    ensures Inv(ProgressCall(w, i, stored))
  {
    if w.calls[i].phase.Saving? {
      SavingKeepsInv(w, i, stored);
    } else if w.calls[i].phase.Loading? || w.calls[i].phase.Discarding? {
      LoadingKeepsInv(w, i, stored);
    }
  }

  lemma EquivalenceIsForAll(c: Connection, their: Did)
    ensures IsOn(c, their) <==> OnCanonical(c, Canonical(their))
  {
  }

  lemma StepKeepsInv(w: World, step: Step)
    requires Inv(w)
    ensures Inv(Next(w, step))
  {
    match step
    case Progress(i, stored) => if i < |w.calls| { ProgressKeepsInv(w, i, stored); }
    case Move(id, theirDid) => MoveKeepsInv(w, id, theirDid);
    case _ =>
      NextGrows(w, step);
      KeepRecords(w, Next(w, step));
      KeepCalls(w, Next(w, step));
  }

  lemma {:induction false} RunKeepsInv(steps: seq<Step>)
    ensures Inv(Run(steps))
  {
    if steps != [] {
      RunKeepsInv(steps[..|steps| - 1]);
      StepKeepsInv(Run(steps[..|steps| - 1]), steps[|steps| - 1]);
    }
  }

  /** However first messages interleave, also with connections that move off their peer's DID: at most one connection
      on the id chain of a pair is on that pair. */
  lemma OneConnectionPerPair(steps: seq<Step>, our: Did, their: Did, a: ConnectionId, b: ConnectionId)
    requires var w := Run(steps); a in w.records && b in w.records && IsOn(w.records[a], their) && IsOn(w.records[b], their)
    requires Origin(a) == Origin(b) == FirstMessageConnectionId(our, their)
    ensures a == b
  {
    RunKeepsInv(steps);
    ChainIsTotal(a, b);
    var w := Run(steps);
    EquivalenceIsForAll(w.records[a], their);
    EquivalenceIsForAll(w.records[b], their);
    assert AllLeftBefore(w, a, Origin(a).their) && AllLeftBefore(w, b, Origin(b).their);
  }

  /** Two calls never both report that they created the same connection; and every call that returned leaves its
      rotated DID either on the connection it created, as it is stored, or handed to cleanup. */
  lemma CreatedOnceAndNoDidForgotten(steps: seq<Step>)
    ensures var w := Run(steps);
            && (forall i, j :: 0 <= i < j < |w.calls| && CreatedId(w.calls[i]).Some? ==>
                  CreatedId(w.calls[i]) != CreatedId(w.calls[j]))
            && (forall i :: 0 <= i < |w.calls| && w.calls[i].phase.Returned? && w.calls[i].rotated.Some? ==>
                  var id := w.calls[i].phase.connection.id;
                  if w.calls[i].phase.created then id in w.records && w.records[id].did == w.calls[i].rotated
                  else w.calls[i].rotated.value in w.discarded)
  {
    RunKeepsInv(steps);
    var w := Run(steps);
    forall i | 0 <= i < |w.calls| && w.calls[i].phase.Returned? && w.calls[i].rotated.Some?
      ensures var id := w.calls[i].phase.connection.id;
              if w.calls[i].phase.created then id in w.records && w.records[id].did == w.calls[i].rotated
              else w.calls[i].rotated.value in w.discarded
    {
      assert CallInv(w, w.calls[i]);
    }
  }

  // ---- A call on its own, step by step ----

  /** The connection that a call for this message creates under an id. */
  function CreatedFor(our: Did, their: Did, rotated: Option<Did>, id: ConnectionId): Connection {
    match rotated
    case Some(did) => Connection(id, Some(did), Some(their))
    case None => Connection(id, Some(our), Some(their))
  }

  /** The world after n steps of one call, while the storage works. */
  function Alone(w: World, i: nat, n: nat): World
    requires i < |w.calls|
    decreases n
  {
    if n == 0 then w else Alone(ProgressCall(w, i, true), i, n - 1)
  }

  lemma {:induction false} AloneInTwoParts(w: World, i: nat, m: nat, n: nat)
    requires i < |w.calls|
    ensures |Alone(w, i, m).calls| == |w.calls|
    ensures Alone(w, i, m + n) == Alone(Alone(w, i, m), i, n)
    decreases m
  {
    if m > 0 { AloneInTwoParts(ProgressCall(w, i, true), i, m - 1, n); }
  }

  /** What a call leaves that ran alone from a free or taken id on: the first usable id's connection, created or found. */
  ghost predicate EndsAtFirstUsable(w: World, i: nat, id: ConnectionId, after: World)
    requires i < |w.calls|
  {
    var c := w.calls[i];
    var usable := FirstUsable(w.records, id, c.their);
    if usable !in w.records then
      var created := CreatedFor(c.our, c.their, c.rotated, usable);
      after == w.(calls := w.calls[i := c.(phase := Returned(created, true))],
                  records := w.records[usable := created], left := w.left[usable := {}])
    else
      after == w.(calls := w.calls[i := c.(phase := Returned(w.records[usable], false))],
                  discarded := w.discarded + (if c.rotated.Some? then {c.rotated.value} else {}))
  }

  lemma FreeIdIsTaken(w: World, i: nat)
    requires i < |w.calls| && w.calls[i].phase.Saving? && w.calls[i].phase.id !in w.records
    ensures EndsAtFirstUsable(w, i, w.calls[i].phase.id, Alone(w, i, 1))
  {
    assert Alone(w, i, 1) == Alone(ProgressCall(w, i, true), i, 0);
  }

  // A call that finds its id taken loads the connection there: it returns it, or goes on with the next id.
  lemma TakenIdIsLoaded(w: World, i: nat)
    requires i < |w.calls| && w.calls[i].phase.Saving? && w.calls[i].phase.id in w.records
    requires w.records[w.calls[i].phase.id].id == w.calls[i].phase.id
    ensures var c := w.calls[i];
      if !IsOn(w.records[c.phase.id], c.their) then
        Alone(w, i, 2) == w.(calls := w.calls[i := c.(phase := Saving(OfId(c.phase.id)))])
      else
        EndsAtFirstUsable(w, i, c.phase.id, Alone(w, i, if c.rotated.Some? then 3 else 2))
  {
    var c := w.calls[i];
    var w1 := ProgressCall(w, i, true);
    assert w1 == w.(calls := w.calls[i := c.(phase := Loading(c.phase.id))]);
    var w2 := ProgressCall(w1, i, true);
    assert Alone(w, i, 2) == Alone(w1, i, 1) == Alone(w2, i, 0) == w2;
    if !IsOn(w.records[c.phase.id], c.their) {
      assert w2 == w.(calls := w.calls[i := c.(phase := Saving(OfId(c.phase.id)))]);
    } else if c.rotated.Some? {
      assert w2 == w.(calls := w.calls[i := c.(phase := Discarding(w.records[c.phase.id]))]);
      var w3 := ProgressCall(w2, i, true);
      assert Alone(w, i, 3) == Alone(w1, i, 2) == Alone(w2, i, 1) == Alone(w3, i, 0) == w3;
    }
  }

  /** A call that runs alone does what the method does: it ends with the connection of the first usable id. */
  lemma {:induction false} CallAloneEndsAtFirstUsable(w: World, i: nat) returns (n: nat)
    requires i < |w.calls| && w.calls[i].phase.Saving?
    requires forall id :: id in w.records ==> w.records[id].id == id
    ensures EndsAtFirstUsable(w, i, w.calls[i].phase.id, Alone(w, i, n))
    decreases Unvisited(w.records, w.calls[i].phase.id)
  {
    var c := w.calls[i];
    var id := c.phase.id;
    if id !in w.records {
      n := 1;
      FreeIdIsTaken(w, i);
    } else {
      TakenIdIsLoaded(w, i);
      if IsOn(w.records[id], c.their) {
        n := if c.rotated.Some? then 3 else 2;
      } else {
        var next := Alone(w, i, 2);
        assert id in Unvisited(w.records, id) && id !in Unvisited(w.records, OfId(id));
        assert Unvisited(w.records, OfId(id)) <= Unvisited(w.records, id);
        var m := CallAloneEndsAtFirstUsable(next, i);
        n := 2 + m;
        AloneInTwoParts(w, i, 2, m);
        assert EndsAtFirstUsable(next, i, OfId(id), Alone(next, i, m));
        EndIsOfTheCall(w, next, i, id, Alone(next, i, m));
      }
    }
  }

  lemma EndIsOfTheCall(w: World, next: World, i: nat, id: ConnectionId, after: World)
    requires i < |w.calls| && id in w.records && !IsOn(w.records[id], w.calls[i].their)
    requires exists phase :: next == w.(calls := w.calls[i := w.calls[i].(phase := phase)])
    requires EndsAtFirstUsable(next, i, OfId(id), after)
    ensures EndsAtFirstUsable(w, i, id, after)
  {
    var phase :| next == w.(calls := w.calls[i := w.calls[i].(phase := phase)]);
    assert FirstUsable(w.records, id, w.calls[i].their) == FirstUsable(w.records, OfId(id), w.calls[i].their);
    var usable := FirstUsable(w.records, id, w.calls[i].their);
    assert forall p :: next.calls[i := next.calls[i].(phase := p)] == w.calls[i := w.calls[i].(phase := p)];
  }

  function Progresses(i: nat, n: nat): seq<Step> {
    seq(n, _ => Progress(i, true))
  }

  lemma RunIsStepByStep(steps: seq<Step>, step: Step)
    ensures Run([]) == EMPTY && Run(steps + [step]) == Next(Run(steps), step)
  {
    assert (steps + [step])[..|steps|] == steps;
  }

  lemma OneMoreAlone(w: World, i: nat, n: nat)
    requires i < |w.calls|
    ensures |Alone(w, i, n).calls| == |w.calls|
    ensures Alone(w, i, n + 1) == Next(Alone(w, i, n), Progress(i, true))
  {
    AloneInTwoParts(w, i, n, 1);
    var before := Alone(w, i, n);
    assert Alone(before, i, 1) == Alone(ProgressCall(before, i, true), i, 0);
  }

  lemma OneMoreProgress(steps: seq<Step>, i: nat, n: nat)
    ensures steps + Progresses(i, n + 1) == steps + Progresses(i, n) + [Progress(i, true)]
  {
  }

  lemma {:induction false} RunAlone(steps: seq<Step>, i: nat, n: nat)
    requires i < |Run(steps).calls|
    ensures Run(steps + Progresses(i, n)) == Alone(Run(steps), i, n)
  {
    if n == 0 {
      assert steps + Progresses(i, 0) == steps;
    } else {
      RunAlone(steps, i, n - 1);
      OneMoreAlone(Run(steps), i, n - 1);
      OneMoreProgress(steps, i, n - 1);
      RunIsStepByStep(steps + Progresses(i, n - 1), Progress(i, true));
    }
  }

  /** After any run a first message is answered, if it is not interrupted and the storage works: with the connection under
      the first usable id of the pair. */
  lemma FirstMessageIsAnswered(steps: seq<Step>, our: Did, their: Did, rotated: Option<Did>) returns (n: nat)
    ensures var w := Run(steps);
      var first := OfPair(Canonical(our), Canonical(their));
      var received := w.(calls := w.calls + [Call(our, their, rotated, Saving(first))]);
      EndsAtFirstUsable(received, |w.calls|, first,
                        Run(steps + [Receive(our, their, rotated)] + Progresses(|w.calls|, n)))
  {
    var w, step := Run(steps), Receive(our, their, rotated);
    RunKeepsInv(steps);
    RunIsStepByStep(steps, step);
    n := CallAloneEndsAtFirstUsable(Run(steps + [step]), |w.calls|);
    RunAlone(steps + [step], |w.calls|, n);
  }

  /** Other connections can be stored under generated ids that are free. */
  lemma OtherConnectionsAreStored(w: World, uuid: string, did: Option<Did>, theirDid: Option<Did>)
    ensures Next(w, Generate(uuid, did, theirDid)).records ==
            if Generated(uuid) in w.records then w.records
            else w.records[Generated(uuid) := Connection(Generated(uuid), did, theirDid)]
  {
  }

  /** A storage failure makes the call throw, and changes nothing else. */
  lemma FailureChangesNothingElse(w: World, i: nat)
    requires i < |w.calls| && (w.calls[i].phase.Saving? || w.calls[i].phase.Loading?)
    ensures ProgressCall(w, i, false) == w.(calls := w.calls[i := w.calls[i].(phase := Threw)])
  {
  }

  /** A connection can move to any DID it did not leave before, and leaves the one it had unless both are equivalent. */
  lemma ConnectionMoves(w: World, id: ConnectionId, theirDid: Option<Did>)
    requires id in w.records && id in w.left
    requires theirDid.Some? ==> Canonical(theirDid.value) !in w.left[id]
    ensures var before, after := w.records[id].theirDid, Next(w, Move(id, theirDid));
      && after.records == w.records[id := w.records[id].(theirDid := theirDid)]
      && after.left[id] == w.left[id] + (
           if before.Some? && (theirDid.None? || !AreEquivalentForms(before.value, theirDid.value))
           then {Canonical(before.value)} else {})
  {
    if w.records[id].theirDid.Some? && theirDid.Some? {
      EquivalenceIsCanonicalEquality(w.records[id].theirDid.value, theirDid.value);
    }
  }

  // ---- A rotated DID is kept or handed to cleanup, never both ----

  predicate Discards(c: Call, did: Did) {
    c.phase.Returned? && !c.phase.created && c.rotated == Some(did)
  }

  /** What was handed to cleanup is the rotated DID of a call that found a connection, and every connection on an id
      chain was created by a call. */
  ghost predicate Attributed(w: World) {
    && (forall did :: did in w.discarded ==> exists i :: 0 <= i < |w.calls| && Discards(w.calls[i], did))
    && (forall id :: id in w.records && Origin(id).OfPair? ==>
          exists i :: 0 <= i < |w.calls| && CreatedId(w.calls[i]) == Some(id))
  }

  // What was discarded or created by a call still was, and the rest is by the call that made the step.
  lemma ProgressKeepsAttributed(w: World, i: nat, stored: bool)
    requires Inv(w) && Attributed(w) && i < |w.calls|
    ensures Attributed(ProgressCall(w, i, stored))
  {
    var w', c := ProgressCall(w, i, stored), w.calls[i];
    assert CallInv(w, c);
    assert forall k :: 0 <= k < |w.calls| && k != i ==> w'.calls[k] == w.calls[k];
    assert c.phase.Returned? ==> w'.calls[i] == c;
    forall did | did in w'.discarded ensures exists k :: 0 <= k < |w'.calls| && Discards(w'.calls[k], did) {
      if did in w.discarded {
        var k :| 0 <= k < |w.calls| && Discards(w.calls[k], did);
        assert Discards(w'.calls[k], did);
      } else {
        assert Discards(w'.calls[i], did);
      }
    }
    forall id | id in w'.records && Origin(id).OfPair?
      ensures exists k :: 0 <= k < |w'.calls| && CreatedId(w'.calls[k]) == Some(id)
    {
      if id in w.records {
        var k :| 0 <= k < |w.calls| && CreatedId(w.calls[k]) == Some(id);
        assert CreatedId(w'.calls[k]) == Some(id);
      } else {
        assert CreatedId(w'.calls[i]) == Some(id);
      }
    }
  }

  lemma OtherStepKeepsAttributed(w: World, step: Step)
    requires Attributed(w) && !step.Progress?
    ensures Attributed(Next(w, step))
  {
    var w' := Next(w, step);
    assert |w.calls| <= |w'.calls| && forall k :: 0 <= k < |w.calls| ==> w'.calls[k] == w.calls[k];
    assert forall id :: id in w'.records && Origin(id).OfPair? ==> id in w.records;
  }

  lemma {:induction false} RunKeepsAttributed(steps: seq<Step>)
    ensures Attributed(Run(steps))
  {
    if steps != [] {
      var before, last := steps[..|steps| - 1], steps[|steps| - 1];
      RunKeepsAttributed(before);
      RunKeepsInv(before);
      if last.Progress? {
        if last.call < |Run(before).calls| { ProgressKeepsAttributed(Run(before), last.call, last.stored); }
      } else {
        OtherStepKeepsAttributed(Run(before), last);
      }
    }
  }

  /** Each rotated DID was made for its call: no other call rotated to it, and no message was addressed to it. */
  predicate FreshRotations(calls: seq<Call>) {
    forall i, j :: 0 <= i < |calls| && 0 <= j < |calls| && calls[i].rotated.Some? ==>
      && (i != j ==> calls[i].rotated != calls[j].rotated)
      && calls[i].rotated.value != calls[j].our
  }

  /** A DID that was handed to cleanup is not the DID of a connection that was created for a first message; so each
      returned call with a rotated DID either left it there or handed it to cleanup, and not both. */
  lemma DiscardedDidIsNotInUse(steps: seq<Step>)
    requires FreshRotations(Run(steps).calls)
    ensures var w := Run(steps);
      && (forall id :: id in w.records && Origin(id).OfPair? ==>
            w.records[id].did.Some? && w.records[id].did.value !in w.discarded)
      && (forall i :: 0 <= i < |w.calls| && w.calls[i].phase.Returned? && w.calls[i].rotated.Some? ==>
            (w.calls[i].rotated.value in w.discarded <==> !w.calls[i].phase.created))
  {
    RunKeepsInv(steps);
    RunKeepsAttributed(steps);
    var w := Run(steps);
    forall id | id in w.records && Origin(id).OfPair?
      ensures w.records[id].did.Some? && w.records[id].did.value !in w.discarded
    {
      var k :| 0 <= k < |w.calls| && CreatedId(w.calls[k]) == Some(id);
      assert CallInv(w, w.calls[k]);
    }
    forall i | 0 <= i < |w.calls| && w.calls[i].phase.Returned? && w.calls[i].rotated.Some?
      ensures w.calls[i].rotated.value in w.discarded <==> !w.calls[i].phase.created
    {
      assert CallInv(w, w.calls[i]);
    }
  }

  // ---- Without moves the first id is the only one ----

  predicate AtFirstId(c: Call) {
    var id := FirstMessageConnectionId(c.our, c.their);
    match c.phase
    case Saving(k) => k == id
    case Loading(k) => k == id
    case Discarding(existing) => existing.id == id
    case Returned(connection, _) => connection.id == id
    case Threw => true
  }

  /** A call that found or created a connection has it as it is stored. */
  predicate AsStored(w: World, c: Call) {
    match c.phase
    case Discarding(existing) => existing.id in w.records && w.records[existing.id] == existing
    case Returned(connection, _) => connection.id in w.records && w.records[connection.id] == connection
    case _ => true
  }

  ghost predicate NeverMoved(w: World) {
    && Inv(w)
    && (forall id :: id in w.left ==> w.left[id] == {})
    && (forall i :: 0 <= i < |w.calls| ==> AtFirstId(w.calls[i]))
    && (forall i :: 0 <= i < |w.calls| ==> AsStored(w, w.calls[i]))
  }

  lemma StillProgressStaysAtFirstId(w: World, i: nat, stored: bool)
    requires NeverMoved(w) && i < |w.calls|
    ensures AtFirstId(ProgressCall(w, i, stored).calls[i])
  {
    var c := w.calls[i];
    assert AtFirstId(c) && CallInv(w, c);
    if c.phase.Loading? {
      EquivalenceIsForAll(w.records[c.phase.id], c.their);
      assert Origin(c.phase.id) == c.phase.id;
    }
  }

  lemma StillStepMovesNothing(w: World, step: Step)
    requires (forall id :: id in w.left ==> w.left[id] == {}) && !step.Move?
    ensures var w' := Next(w, step); forall id :: id in w'.left ==> w'.left[id] == {}
  {
  }

  lemma StillStepStaysAtFirstId(w: World, step: Step)
    requires NeverMoved(w) && !step.Move?
    ensures var w' := Next(w, step); forall i :: 0 <= i < |w'.calls| ==> AtFirstId(w'.calls[i])
  {
    if step.Progress? && step.call < |w.calls| {
      StillProgressStaysAtFirstId(w, step.call, step.stored);
      var w' := Next(w, step);
      assert forall k :: 0 <= k < |w.calls| && k != step.call ==> w'.calls[k] == w.calls[k];
    }
  }

  lemma StillStepKeepsRecords(w: World, step: Step)
    requires !step.Move?
    ensures forall id :: id in w.records ==> id in Next(w, step).records && Next(w, step).records[id] == w.records[id]
  {
  }

  lemma StillProgressIsAsStored(w: World, i: nat, stored: bool)
    requires NeverMoved(w) && i < |w.calls|
    ensures AsStored(ProgressCall(w, i, stored), ProgressCall(w, i, stored).calls[i])
  {
    assert AsStored(w, w.calls[i]) && CallInv(w, w.calls[i]);
  }

  lemma StillStepKeepsAsStored(w: World, step: Step)
    requires NeverMoved(w) && !step.Move?
    ensures var w' := Next(w, step); forall i :: 0 <= i < |w'.calls| ==> AsStored(w', w'.calls[i])
  {
    var w' := Next(w, step);
    StillStepKeepsRecords(w, step);
    forall i | 0 <= i < |w'.calls| ensures AsStored(w', w'.calls[i]) {
      if step.Progress? && step.call == i {
        StillProgressIsAsStored(w, i, step.stored);
      } else if i < |w.calls| {
        assert w'.calls[i] == w.calls[i] && AsStored(w, w.calls[i]);
      }
    }
  }

  lemma StillStepKeepsNeverMoved(w: World, step: Step)
    requires NeverMoved(w) && !step.Move?
    ensures NeverMoved(Next(w, step))
  {
    StepKeepsInv(w, step);
    StillStepMovesNothing(w, step);
    StillStepStaysAtFirstId(w, step);
    StillStepKeepsAsStored(w, step);
  }

  lemma {:induction false} StillRunKeepsNeverMoved(steps: seq<Step>)
    requires forall i :: 0 <= i < |steps| ==> !steps[i].Move?
    ensures NeverMoved(Run(steps))
  {
    if steps != [] {
      StillRunKeepsNeverMoved(steps[..|steps| - 1]);
      StillStepKeepsNeverMoved(Run(steps[..|steps| - 1]), steps[|steps| - 1]);
    }
  }

  /** While no connection moves, all racing first messages of one pair return the same connection, whichever form of
      its DIDs each names, and at most one of them reports that it created it. */
  lemma RacingCallsShareOneConnection(steps: seq<Step>, i: nat, j: nat)
    requires forall k :: 0 <= k < |steps| ==> !steps[k].Move?
    requires var w := Run(steps);
             i < j < |w.calls| && w.calls[i].phase.Returned? && w.calls[j].phase.Returned?
             && AreEquivalentForms(w.calls[i].our, w.calls[j].our) && AreEquivalentForms(w.calls[i].their, w.calls[j].their)
    ensures var w := Run(steps);
            && w.calls[i].phase.connection == w.calls[j].phase.connection
            && w.calls[i].phase.connection.id in w.records
            && w.records[w.calls[i].phase.connection.id] == w.calls[i].phase.connection
            && !(w.calls[i].phase.created && w.calls[j].phase.created)
  {
    StillRunKeepsNeverMoved(steps);
    var w := Run(steps);
    EquivalenceIsCanonicalEquality(w.calls[i].our, w.calls[j].our);
    EquivalenceIsCanonicalEquality(w.calls[i].their, w.calls[j].their);
  }
}
