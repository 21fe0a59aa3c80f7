/** The table of open transport sessions, whose objects are shared with the transports and the message receiver. */
module TransportSessions {
  import opened Wrappers

  // ---- The table as a value ----

  datatype Entry = Entry(kind: string, connectionId: Option<string>)

  type View = map<string, Entry>

  /** Whether an entry is of this type and for this connection; the empty id is no connection. */
  predicate Serves(e: Entry, connectionId: Option<string>, kind: string) {
    connectionId.GetOr("") != "" && e.connectionId == connectionId && e.kind == kind
  }

  function Displaced(v: View, id: string, e: Entry): set<string> {
    set k | k in v && k != id && Serves(v[k], e.connectionId, e.kind)
  }

  function AfterSave(v: View, id: string, e: Entry): View {
    (v - Displaced(v, id, e))[id := e]
  }

  /** What the transports, the handlers and the receiver do with sessions. */
  datatype Op =
    | Save(id: string, entry: Entry)
    | SetConnectionId(id: string, connectionId: string)
    | Remove(id: string)

  function Next(v: View, op: Op): View {
    match op
    case Save(id, entry) => AfterSave(v, id, entry)
    case SetConnectionId(id, connectionId) =>
      if id in v then AfterSave(v, id, Entry(v[id].kind, Some(connectionId))) else v
    case Remove(id) => v - {id}
  }

  function Run(v: View, ops: seq<Op>): View {
    if ops == [] then v else Next(Run(v, ops[..|ops| - 1]), ops[|ops| - 1])
  }

  /** At most one session for each connection and type. */
  ghost predicate OnePerConnection(v: View) {
    forall k, l :: k in v && l in v && Serves(v[k], v[l].connectionId, v[l].kind) ==> k == l
  }

  lemma SaveKeepsOne(v: View, id: string, e: Entry)
    requires OnePerConnection(v)
    ensures OnePerConnection(AfterSave(v, id, e))
  {
    var w := AfterSave(v, id, e);
    forall k | k in w && k != id ensures k in v && w[k] == v[k] && !Serves(v[k], e.connectionId, e.kind) {
      assert k !in Displaced(v, id, e);
    }
  }

  /** Changing a session before it is saved makes no difference to what is stored then. */
  lemma SaveForgets(v: View, w: View, id: string, e: Entry)
    requires forall k :: k != id ==> (k in v <==> k in w)
    requires forall k :: k in v && k != id ==> v[k] == w[k]
    ensures Displaced(v, id, e) == Displaced(w, id, e) && AfterSave(v, id, e) == AfterSave(w, id, e)
  {
    assert forall k :: k in Displaced(v, id, e) <==> k in Displaced(w, id, e);
  }

  /** A run is its operations, one after the other. */
  lemma RunIsStepByStep(v: View, ops: seq<Op>, op: Op)
    ensures Run(v, []) == v && Run(v, ops + [op]) == Next(Run(v, ops), op)
  {
    assert (ops + [op])[..|ops|] == ops;
  }

  /** No sequence of operations stores two sessions for one connection and type. */
  lemma {:induction false} EveryRunKeepsOnePerConnection(v: View, ops: seq<Op>)
    requires OnePerConnection(v)
    ensures OnePerConnection(Run(v, ops))
  {
    if ops != [] {
      EveryRunKeepsOnePerConnection(v, ops[..|ops| - 1]);
      var before := Run(v, ops[..|ops| - 1]);
      match ops[|ops| - 1]
      case Save(id, e) => SaveKeepsOne(before, id, e);
      case SetConnectionId(id, c) => if id in before { SaveKeepsOne(before, id, Entry(before[id].kind, Some(c))); }
      case Remove(id) =>
    }
  }

  /** Two sessions that cannot both be stored: of one connection, which is not the empty id, and of one type. */
  predicate Compete(a: Entry, connectionId: Option<string>, kind: string) {
    a.kind == kind && a.connectionId == connectionId && connectionId != None && connectionId != Some("")
  }

  /** An operation leaves a stored session as it is exactly when it does not remove it, does not save it as something
      else, and does not give its connection to another session of its type. */
  lemma StaysExactlyWhen(v: View, op: Op, id: string)
    requires id in v
    ensures (id in Next(v, op) && Next(v, op)[id] == v[id]) <==>
      match op
      case Save(other, e) => if other == id then e == v[id] else !Compete(v[id], e.connectionId, e.kind)
      case SetConnectionId(other, c) =>
        if other == id then v[id].connectionId == Some(c)
        else !(other in v && Compete(v[id], Some(c), v[other].kind))
      case Remove(other) => other != id
  {
    match op
    case Save(other, e) => assert other != id ==> (id in Displaced(v, other, e) <==> Serves(v[id], e.connectionId, e.kind));
    case SetConnectionId(other, c) =>
      if other in v && other != id {
        assert id in Displaced(v, other, Entry(v[other].kind, Some(c))) <==> Serves(v[id], Some(c), v[other].kind);
      }
    case Remove(other) =>
  }

  /** A session that was saved for a connection is the one found for it, of its type. */
  lemma SavedSessionIsTheOne(v: View, id: string, e: Entry, k: string)
    requires e.connectionId.GetOr("") != ""
    ensures k in AfterSave(v, id, e) && Serves(AfterSave(v, id, e)[k], e.connectionId, e.kind) <==> k == id
  {
    if k in v && k != id && Serves(v[k], e.connectionId, e.kind) { assert k in Displaced(v, id, e); }
  }

  // ---- The order of the table ----

  /** The ids that are left, in their order. */
  function Without(ids: seq<string>, gone: set<string>): seq<string> {
    if ids == [] then []
    else if ids[0] in gone then Without(ids[1..], gone)
    else [ids[0]] + Without(ids[1..], gone)
  }

  /** A new id comes last, and a stored one stays where it is. */
  function Placed(ids: seq<string>, id: string): seq<string> {
    if id in ids then ids else ids + [id]
  }

  function OrderAfterSave(ids: seq<string>, v: View, id: string, e: Entry): seq<string> {
    Placed(Without(ids, Displaced(v, id, e)), id)
  }

  ghost predicate Distinct(ids: seq<string>) {
    forall i, j :: 0 <= i < j < |ids| ==> ids[i] != ids[j]
  }

  /** The ids list the table, each once. */
  ghost predicate Lists(ids: seq<string>, stored: set<string>) {
    Distinct(ids) && forall k :: k in ids <==> k in stored
  }

  lemma {:induction false} InWithout(ids: seq<string>, gone: set<string>, k: string)
    ensures k in Without(ids, gone) <==> k in ids && k !in gone
  {
    if ids != [] {
      InWithout(ids[1..], gone, k);
      assert k in ids <==> k == ids[0] || k in ids[1..];
    }
  }

  lemma {:induction false} WithoutIsDistinct(ids: seq<string>, gone: set<string>)
    requires Distinct(ids)
    ensures Distinct(Without(ids, gone))
  {
    if ids != [] {
      WithoutIsDistinct(ids[1..], gone);
      InWithout(ids[1..], gone, ids[0]);
    }
  }

  lemma WithoutLists(ids: seq<string>, stored: set<string>, gone: set<string>)
    requires Lists(ids, stored)
    ensures Lists(Without(ids, gone), stored - gone)
  {
    WithoutIsDistinct(ids, gone);
    forall k ensures k in Without(ids, gone) <==> k in stored - gone { InWithout(ids, gone, k); }
  }

  lemma PlacedLists(ids: seq<string>, stored: set<string>, id: string)
    requires Lists(ids, stored)
    ensures Lists(Placed(ids, id), stored + {id})
  {
  }

  lemma SavingLists(ids: seq<string>, stored: set<string>, gone: set<string>, id: string)
    requires Lists(ids, stored)
    ensures Lists(Placed(Without(ids, gone), id), stored - gone + {id})
  {
    WithoutLists(ids, stored, gone);
    PlacedLists(Without(ids, gone), stored - gone, id);
  }

  lemma {:induction false} WithoutNothing(ids: seq<string>)
    ensures Without(ids, {}) == ids
  {
    if ids != [] { WithoutNothing(ids[1..]); }
  }

  lemma {:induction false} WithoutBoth(ids: seq<string>, a: set<string>, b: set<string>)
    ensures Without(Without(ids, a), b) == Without(ids, a + b)
  {
    if ids != [] {
      WithoutBoth(ids[1..], a, b);
      if ids[0] !in a { assert ([ids[0]] + Without(ids[1..], a))[1..] == Without(ids[1..], a); }
    }
  }

  lemma RemovingBoth<T>(m: map<string, T>, a: set<string>, b: set<string>)
    ensures m - a - b == m - (a + b)
  {
  }

  predicate IsFor(v: View, k: string, connectionId: string) {
    k in v && v[k].connectionId == Some(connectionId)
  }

  /** The first session of a connection. */
  function FirstOf(ids: seq<string>, v: View, connectionId: string): Option<string> {
    if ids == [] then None
    else if IsFor(v, ids[0], connectionId) then Some(ids[0])
    else FirstOf(ids[1..], v, connectionId)
  }

  lemma {:induction false} FirstOfAll(ids: seq<string>, v: View, connectionId: string)
    ensures var f := FirstOf(ids, v, connectionId);
      && (f.None? <==> forall k :: k in ids ==> !IsFor(v, k, connectionId))
      && (f.Some? ==> exists i :: 0 <= i < |ids| && ids[i] == f.value && IsFor(v, f.value, connectionId)
                                  && forall j :: 0 <= j < i ==> !IsFor(v, ids[j], connectionId))
  {
    if ids != [] {
      FirstOfAll(ids[1..], v, connectionId);
      assert forall k :: k in ids <==> k == ids[0] || k in ids[1..];
      var rest := FirstOf(ids[1..], v, connectionId);
      if IsFor(v, ids[0], connectionId) {
        assert ids[0] == ids[0];
      } else if rest.Some? {
        var i :| 0 <= i < |ids[1..]| && ids[1..][i] == rest.value
                 && forall j :: 0 <= j < i ==> !IsFor(v, ids[1..][j], connectionId);
        assert ids[i + 1] == rest.value && forall j :: 0 < j < i + 1 ==> ids[j] == ids[1..][j - 1];
      }
    }
  }

  lemma {:induction false} FirstOfAppended(ids: seq<string>, id: string, v: View, connectionId: string)
    requires !IsFor(v, id, connectionId)
    ensures FirstOf(ids + [id], v, connectionId) == FirstOf(ids, v, connectionId)
  {
    if ids != [] {
      FirstOfAppended(ids[1..], id, v, connectionId);
      assert (ids + [id])[1..] == ids[1..] + [id];
    }
  }

  lemma {:induction false} FirstOfOthers(ids: seq<string>, v: View, w: View, gone: set<string>, connectionId: string)
    requires forall k :: k in gone ==> !IsFor(v, k, connectionId)
    requires forall k :: k !in gone ==> (IsFor(v, k, connectionId) <==> IsFor(w, k, connectionId))
    ensures FirstOf(Without(ids, gone), w, connectionId) == FirstOf(ids, v, connectionId)
  {
    if ids != [] {
      FirstOfOthers(ids[1..], v, w, gone, connectionId);
      if ids[0] !in gone { assert ([ids[0]] + Without(ids[1..], gone))[1..] == Without(ids[1..], gone); }
    }
  }

  /** Saving a session does not change which session is found for a connection that it neither had nor gets. */
  lemma SaveKeepsTheFirstOfOthers(ids: seq<string>, v: View, id: string, e: Entry, connectionId: string)
    requires e.connectionId != Some(connectionId) && !IsFor(v, id, connectionId)
    ensures FirstOf(OrderAfterSave(ids, v, id, e), AfterSave(v, id, e), connectionId) == FirstOf(ids, v, connectionId)
  {
    var gone, w := Displaced(v, id, e), AfterSave(v, id, e);
    FirstOfOthers(ids, v, w, gone, connectionId);
    FirstOfAppended(Without(ids, gone), id, w, connectionId);
  }

  // ---- The table of objects ----

  class Session {
    const id: string
    const kind: string
    var connectionId: Option<string>

    constructor (id: string, kind: string)
      ensures this.id == id && this.kind == kind && connectionId == None
    {
      this.id, this.kind, connectionId := id, kind, None;
    }
  }

  class DidCommTransportService {
    var table: map<string, Session>
    /** The ids in the order in which they were stored, which is the order in which the table is gone through. */
    var order: seq<string>

    /** Every session is stored under its own id, and there is at most one for each connection and type. */
    ghost predicate Valid()
      reads this, table.Values
    {
      Keyed() && Listed() && OnePerConnection(Contents())
    }

    ghost predicate Keyed()
      reads this
    {
      forall k :: k in table ==> table[k].id == k
    }

    ghost predicate Listed()
      reads this
    {
      Lists(order, table.Keys)
    }

    function Contents(): View
      reads this, table.Values
    {
      map k | k in table :: Entry(table[k].kind, table[k].connectionId)
    }

    constructor ()
      ensures Valid() && Contents() == map[] && order == []
    {
      table, order := map[], [];
    }

    method FindSessionById(id: string) returns (s: Option<Session>)
      ensures s.None? <==> id !in table
      ensures s.Some? ==> id in table && s.value == table[id]
    {
      s := if id in table then Some(table[id]) else None;
    }

    method FindSessionByConnectionId(connectionId: string) returns (s: Option<Session>)
      requires Valid()
      ensures s.None? <==> forall k :: k in Contents() ==> Contents()[k].connectionId != Some(connectionId)
      ensures s.None? <==> FirstOf(order, Contents(), connectionId).None?
      ensures s.Some? ==> FirstOf(order, Contents(), connectionId) == Some(s.value.id)
                          && s.value.id in table && table[s.value.id] == s.value
                          && s.value.connectionId == Some(connectionId)
    {
      FirstOfAll(order, Contents(), connectionId);
      for i := 0 to |order|
        invariant forall j :: 0 <= j < i ==> !IsFor(Contents(), order[j], connectionId)
      {
        var k := order[i];
        assert k in table;
        if table[k].connectionId == Some(connectionId) {
          assert IsFor(Contents(), k, connectionId);
          return Some(table[k]);
        }
      }
      assert forall k :: k in Contents() ==> k in order;
      s := None;
    }

    method RemoveSession(session: Session)
      modifies this
      ensures table == old(table) - {session.id} && order == Without(old(order), {session.id})
      ensures Contents() == Next(old(Contents()), Remove(session.id))
      ensures old(Listed()) ==> Listed()
      ensures old(Valid()) ==> Valid()
    {
      if Listed() { WithoutLists(order, table.Keys, {session.id}); }
      Delete(session.id);
    }

    method Delete(id: string)
      modifies this
      ensures table == old(table) - {id} && table.Keys == old(table).Keys - {id} && order == Without(old(order), {id})
    {
      table, order := table - {id}, Without(order, {id});
    }

    method GetExistingSessions(connectionId: string, kind: string) returns (ids: set<string>)
      requires connectionId != ""
      ensures ids == set k | k in Contents() && Serves(Contents()[k], Some(connectionId), kind)
    {
      ids := set k | k in table && table[k].connectionId == Some(connectionId) && table[k].kind == kind;
    }

    method RemoveOthers(oldSessions: set<string>, id: string)
      requires Keyed() && oldSessions <= table.Keys
      modifies this
      ensures table == old(table) - (oldSessions - {id}) && order == Without(old(order), oldSessions - {id})
    {
      ghost var stored, listed, removed: set<string> := table, order, {};
      var todo := oldSessions;
      WithoutNothing(order);
      while todo != {}
        invariant forall k :: k in todo ==> k in table && k in oldSessions
        invariant forall k :: k in oldSessions && k != id ==> k in removed || k in todo
        invariant forall k :: k in removed ==> k in oldSessions && k != id
        invariant Keyed() && Lost(stored, listed, removed)
        decreases |todo|
      {
        var k :| k in todo;
        if table[k].id != id {
          RemoveOne(table[k], stored, listed, removed);
          removed := removed + {k};
        }
        todo := todo - {k};
      }
      assert removed == oldSessions - {id};
    }

    /** What is left of a table of which these ids were removed. */
    ghost predicate Lost(stored: map<string, Session>, listed: seq<string>, removed: set<string>)
      reads this
    {
      table == stored - removed && order == Without(listed, removed)
    }

    method RemoveOne(session: Session, ghost stored: map<string, Session>, ghost listed: seq<string>,
                     ghost removed: set<string>)
      requires Keyed() && Lost(stored, listed, removed)
      modifies this
      ensures Keyed() && table.Keys == old(table).Keys - {session.id} && Lost(stored, listed, removed + {session.id})
    {
      WithoutBoth(listed, removed, {session.id});
      RemovingBoth(stored, removed, {session.id});
      Delete(session.id);
    }

    method RemoveDisplaced(session: Session)
      requires Keyed()
      modifies this
      ensures var gone := Displaced(old(Contents()), session.id, Entry(session.kind, session.connectionId));
        table == old(table) - gone && order == Without(old(order), gone)
    {
      ghost var gone := Displaced(Contents(), session.id, Entry(session.kind, session.connectionId));
      if session.connectionId.GetOr("") != "" {
        var oldSessions := GetExistingSessions(session.connectionId.value, session.kind);
        assert oldSessions - {session.id} == gone;
        RemoveOthers(oldSessions, session.id);
      } else {
        assert gone == {};
        WithoutNothing(order);
      }
    }

    /** Sessions of the same type for the same connection are removed before the session is stored. */
    method SaveSession(session: Session)
      requires Keyed() && Listed()
      modifies this
      ensures Contents() == AfterSave(old(Contents()), session.id, Entry(session.kind, session.connectionId))
      ensures order == OrderAfterSave(
        old(order), old(Contents()), session.id, Entry(session.kind, session.connectionId))
      ensures Keyed() && Listed() && session.id in table && table[session.id] == session
    {
      ghost var gone := Displaced(Contents(), session.id, Entry(session.kind, session.connectionId));
      SavingLists(order, table.Keys, gone, session.id);
      ghost var before := Contents();
      Replace(session);
      assert Contents().Keys == AfterSave(before, session.id, Entry(session.kind, session.connectionId)).Keys;
    }

    method Replace(session: Session)
      requires Keyed()
      modifies this
      ensures var gone := Displaced(old(Contents()), session.id, Entry(session.kind, session.connectionId));
        && table.Keys == old(table).Keys - gone + {session.id}
        && (forall k :: k in table ==> table[k] == if k == session.id then session else old(table)[k])
        && order == Placed(Without(old(order), gone), session.id)
    {
      RemoveDisplaced(session);
      table, order := table[session.id := session], Placed(order, session.id);
    }

    method SetConnectionIdForSession(sessionId: string, connectionId: string) returns (found: bool)
      requires Valid()
      modifies this, table.Values
      ensures found <==> old(sessionId in table)
      ensures Valid() && Contents() == Next(old(Contents()), SetConnectionId(sessionId, connectionId))
      ensures !found ==> order == old(order)
      ensures found ==> order == OrderAfterSave(
        old(order), old(Contents()), sessionId, Entry(old(Contents())[sessionId].kind, Some(connectionId)))
    {
      var session := FindSessionById(sessionId);
      if session.None? { return false; }
      SaveKeepsOne(Contents(), sessionId, Entry(session.value.kind, Some(connectionId)));
      AssignAndSave(session.value, Some(connectionId));
      found := true;
    }

    /** The receiver sets the connection of the session a message came over, stored or not, and saves it. */
    method AssignAndSave(session: Session, connectionId: Option<string>)
      requires Valid()
      modifies this, session
      ensures Valid() && session.connectionId == connectionId
      ensures Contents() == Next(old(Contents()), Save(session.id, Entry(session.kind, connectionId)))
      ensures order == OrderAfterSave(old(order), old(Contents()), session.id, Entry(session.kind, connectionId))
    {
      ghost var before := Contents();
      session.connectionId := connectionId;
      SaveForgets(before, Contents(), session.id, Entry(session.kind, connectionId));
      SaveSession(session);
      SaveKeepsOne(before, session.id, Entry(session.kind, connectionId));
    }
  }
}
