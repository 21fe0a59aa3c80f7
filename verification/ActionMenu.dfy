/** The Action Menu service: its record, its repository and every step that changes them. */
module ActionMenu {
  import opened Wrappers

  datatype Role = Requester | Responder

  datatype MenuState =
    | Null
    | AwaitingRootMenu
    | PreparingRootMenu
    | PreparingSelection
    | AwaitingSelection
    | Done

  datatype MenuOption = MenuOption(name: string, title: string, description: string)
  datatype Menu = Menu(title: string, description: string, options: seq<MenuOption>)
  datatype Selection = Selection(name: string, params: map<string, string>)
  datatype Connection = Connection(id: string, ready: bool)

  datatype Record = Record(
    connectionId: string,
    role: Role,
    state: MenuState,
    threadId: string,
    menu: Option<Menu>,
    performed: Option<Selection>)

  datatype Error =
    | ConnectionNotReady
    | DuplicatedOptions
    | InvalidState
    | InvalidRole
    | InvalidSelection
    | MenuCleared
    | RecordNotFound

  predicate Offers(menu: Menu, name: string) {
    exists i :: 0 <= i < |menu.options| && menu.options[i].name == name
  }

  predicate ValidSelection(menu: Option<Menu>, name: string) {
    menu.Some? && Offers(menu.value, name)
  }

  predicate DistinctNames(menu: Menu) {
    forall i, j :: 0 <= i < j < |menu.options| ==> menu.options[i].name != menu.options[j].name
  }

  // ---- What each step makes of the record of one connection and role ----

  function RequestSent(c: string, id: string): Record {
    Record(c, Requester, AwaitingRootMenu, id, None, None)
  }

  // A restarted protocol takes the message id, a new record the thread of the message.
  function RequestReceived(slot: Option<Record>, c: string, id: string, thread: string): Record {
    Record(c, Responder, PreparingRootMenu, if slot.Some? then id else thread, None, None)
  }

  function MenuSent(slot: Option<Record>, c: string, id: string, menu: Menu, strict: bool): Result<Record, Error> {
    if !DistinctNames(menu) then Err(DuplicatedOptions)
    else if slot.None? then Ok(Record(c, Responder, AwaitingSelection, id, Some(menu), None))
    else
      var r := slot.value;
      if strict && !(r.state.Null? || r.state.PreparingRootMenu? || r.state.Done?) then Err(InvalidState)
      else Ok(r.(menu := Some(menu),
                 state := AwaitingSelection,
                 threadId := if r.state.Null? then id else r.threadId))
  }

  function MenuReceived(c: string, thread: string, menu: Menu): Record {
    Record(c, Requester, PreparingSelection, thread, Some(menu), None)
  }

  function PerformSent(r: Record, selection: Selection, strict: bool): Result<Record, Error> {
    if !r.role.Requester? then Err(InvalidRole)
    else if strict && !r.state.PreparingSelection? then Err(InvalidState)
    else if !ValidSelection(r.menu, selection.name) then Err(InvalidSelection)
    else Ok(r.(performed := Some(selection), state := Done))
  }

  function PerformReceived(slot: Option<Record>, thread: string, selection: Selection, strict: bool)
    : Result<Record, Error>
  {
    if slot.None? || slot.value.threadId != thread then Err(RecordNotFound)
    else
      var r := slot.value;
      if r.state.Null? then Err(MenuCleared)
      else if strict && !r.state.AwaitingSelection? then Err(InvalidState)
      else if !ValidSelection(r.menu, selection.name) then Err(InvalidSelection)
      else Ok(r.(state := Done, performed := Some(selection)))
  }

  function Cleared(r: Record): Record {
    r.(state := Null, menu := None, performed := None)
  }

  // ---- The repository ----

  predicate SameKey(r: Record, c: string, role: Role) {
    r.connectionId == c && r.role == role
  }

  /** The record found by connection and role. */
  function Slot(records: seq<Record>, c: string, role: Role): Option<Record> {
    if records == [] then None
    else if SameKey(records[0], c, role) then Some(records[0])
    else Slot(records[1..], c, role)
  }

  /** Saves a new record, or updates the one that has its connection and role. */
  function Save(records: seq<Record>, r: Record): seq<Record> {
    if records == [] then [r]
    else if SameKey(records[0], r.connectionId, r.role) then [r] + records[1..]
    else [records[0]] + Save(records[1..], r)
  }

  ghost predicate Unique(records: seq<Record>) {
    forall i, j :: 0 <= i < j < |records| ==> !SameKey(records[i], records[j].connectionId, records[j].role)
  }

  /** What the state of a record says about its menu and its performed action. */
  predicate Coherent(r: Record) {
    && (r.state.Null? || r.state.AwaitingRootMenu? || r.state.PreparingRootMenu? ==> r.menu.None? && r.performed.None?)
    && (r.state.PreparingSelection? ==> r.role.Requester? && r.menu.Some? && r.performed.None?)
    && (r.state.AwaitingSelection? ==> r.role.Responder? && r.menu.Some?)
    && (r.state.Done? ==> r.performed.Some? && ValidSelection(r.menu, r.performed.value.name))
    && (r.state.AwaitingRootMenu? ==> r.role.Requester?)
    && (r.state.PreparingRootMenu? ==> r.role.Responder?)
    && (r.role.Responder? && r.menu.Some? ==> DistinctNames(r.menu.value))
  }

  ghost predicate AllCoherent(records: seq<Record>) {
    forall i :: 0 <= i < |records| ==> Coherent(records[i])
  }

  lemma {:induction false} SlotIsMember(records: seq<Record>, c: string, role: Role)
    ensures var s := Slot(records, c, role);
            && (s.Some? ==> s.value in records && SameKey(s.value, c, role))
            && (s.None? ==> forall r :: r in records ==> !SameKey(r, c, role))
  {
    if records != [] && !SameKey(records[0], c, role) {
      SlotIsMember(records[1..], c, role);
      assert records == [records[0]] + records[1..];
    }
  }

  /** Saving keeps one record per connection and role, and changes no other pair. */
  lemma {:induction false} SaveKeepsOthers(records: seq<Record>, r: Record)
    requires Unique(records)
    ensures Unique(Save(records, r))
    ensures forall x :: x in Save(records, r) ==> x == r || x in records
    ensures forall c, role ::
      Slot(Save(records, r), c, role) == if SameKey(r, c, role) then Some(r) else Slot(records, c, role)
  {
    if records != [] {
      var tail := records[1..];
      assert records == [records[0]] + tail;
      if SameKey(records[0], r.connectionId, r.role) {
        var after := Save(records, r);
        assert after == [r] + tail;
        forall i, j | 0 <= i < j < |after| ensures !SameKey(after[i], after[j].connectionId, after[j].role) {
          assert after[j] == records[j];
          if i > 0 { assert after[i] == records[i]; }
        }
      } else {
        assert Unique(tail);
        SaveKeepsOthers(tail, r);
        var rest := Save(tail, r);
        var after := Save(records, r);
        assert after == [records[0]] + rest;
        forall i, j | 0 <= i < j < |after| ensures !SameKey(after[i], after[j].connectionId, after[j].role) {
          assert after[j] == rest[j - 1];
          if i == 0 {
            if rest[j - 1] != r {
              assert rest[j - 1] in rest;
              var k :| 0 <= k < |tail| && tail[k] == rest[j - 1];
              assert records[k + 1] == tail[k];
            }
          }
        }
      }
    }
  }

  // ---- Any sequence of service calls ----

  datatype Op =
    | CreateRequest(connection: Connection, id: string)
    | ProcessRequest(connection: Connection, id: string, thread: string)
    | CreateMenu(connection: Connection, id: string, menu: Menu)
    | ProcessMenu(connection: Connection, thread: string, menu: Menu)
    | CreatePerform(c: string, role: Role, selection: Selection)
    | ProcessPerform(connection: Connection, thread: string, selection: Selection)
    | ClearMenu(c: string, role: Role)
    | ProcessProblemReport(connection: Connection)

  /** The record a call saves, or the error it throws; a call that throws saves nothing. */
  function Outcome(records: seq<Record>, op: Op, strict: bool): Result<Record, Error> {
    match op
    case CreateRequest(c, id) =>
      if !c.ready then Err(ConnectionNotReady) else Ok(RequestSent(c.id, id))
    case ProcessRequest(c, id, thread) =>
      if !c.ready then Err(ConnectionNotReady)
      else Ok(RequestReceived(Slot(records, c.id, Responder), c.id, id, thread))
    case CreateMenu(c, id, menu) =>
      if !c.ready then Err(ConnectionNotReady)
      else MenuSent(Slot(records, c.id, Responder), c.id, id, menu, strict)
    case ProcessMenu(c, thread, menu) =>
      if !c.ready then Err(ConnectionNotReady) else Ok(MenuReceived(c.id, thread, menu))
    case CreatePerform(c, role, selection) =>
      var s := Slot(records, c, role);
      if s.None? then Err(RecordNotFound) else PerformSent(s.value, selection, strict)
    case ProcessPerform(c, thread, selection) =>
      if !c.ready then Err(ConnectionNotReady)
      else PerformReceived(Slot(records, c.id, Responder), thread, selection, strict)
    case ClearMenu(c, role) =>
      var s := Slot(records, c, role);
      if s.None? then Err(RecordNotFound) else Ok(Cleared(s.value))
    case ProcessProblemReport(c) =>
      if !c.ready then Err(ConnectionNotReady)
      else
        var s := Slot(records, c.id, Requester);
        if s.None? then Err(RecordNotFound) else Ok(Cleared(s.value))
  }

  function Perform(records: seq<Record>, op: Op, strict: bool): seq<Record> {
    var o := Outcome(records, op, strict);
    if o.Ok? then Save(records, o.value) else records
  }

  function Run(ops: seq<(Op, bool)>): seq<Record> {
    if ops == [] then []
    else
      var last := ops[|ops| - 1];
      Perform(Run(ops[..|ops| - 1]), last.0, last.1)
  }

  lemma OutcomeIsCoherent(records: seq<Record>, op: Op, strict: bool)
    requires Unique(records) && AllCoherent(records)
    ensures var o := Outcome(records, op, strict); o.Ok? ==> Coherent(o.value)
  {
    forall c, role ensures var s := Slot(records, c, role); s.Some? ==> Coherent(s.value) && SameKey(s.value, c, role) {
      SlotIsMember(records, c, role);
    }
  }

  /** Every reachable repository, whatever calls ran and whether each ran in strict mode or not, holds at most one
      record per connection and role, and every record's state fits its menu and its performed action. */
  lemma {:induction false} EveryRunIsCoherent(ops: seq<(Op, bool)>)
    ensures Unique(Run(ops)) && AllCoherent(Run(ops))
  {
    if ops != [] {
      var before := Run(ops[..|ops| - 1]);
      EveryRunIsCoherent(ops[..|ops| - 1]);
      var (op, strict) := ops[|ops| - 1];
      var o := Outcome(before, op, strict);
      OutcomeIsCoherent(before, op, strict);
      if o.Ok? {
        SaveKeepsOthers(before, o.value);
        var after := Save(before, o.value);
        forall i | 0 <= i < |after| ensures Coherent(after[i]) {
          assert after[i] in after;
        }
      }
    }
  }

  // ---- What each call leaves, and when it fails ----

  /** The record a connection has in a role, if it has one. */
  ghost predicate IsPrior(records: seq<Record>, c: string, role: Role, prior: Option<Record>) {
    if prior.Some? then prior.value in records && prior.value.connectionId == c && prior.value.role == role
    else forall r :: r in records ==> r.connectionId != c || r.role != role
  }

  lemma SlotIsPrior(records: seq<Record>, c: string, role: Role, prior: Option<Record>)
    requires Unique(records) && IsPrior(records, c, role, prior)
    ensures Slot(records, c, role) == prior
  {
    SlotIsMember(records, c, role);
    var s := Slot(records, c, role);
    if s.Some? {
      var i :| 0 <= i < |records| && records[i] == s.value;
      assert prior.Some?;
      var j :| 0 <= j < |records| && records[j] == prior.value;
      assert i == j;
    }
  }

  function Names(options: seq<MenuOption>): set<string> {
    set o | o in options :: o.name
  }

  lemma NamesOfOneMore(options: seq<MenuOption>)
    requires options != []
    ensures Names(options) == Names(options[..|options| - 1]) + {options[|options| - 1].name}
  {
    var front, last := options[..|options| - 1], options[|options| - 1];
    assert forall o :: o in options <==> o in front || o == last;
  }

  lemma NameOfPrefix(options: seq<MenuOption>, name: string)
    ensures name in Names(options) <==> exists i :: 0 <= i < |options| && options[i].name == name
  {
    if name in Names(options) {
      var o :| o in options && o.name == name;
      var i :| 0 <= i < |options| && options[i] == o;
    }
    if i :| 0 <= i < |options| && options[i].name == name { assert options[i] in options; }
  }

  /** Options repeat no name exactly when there are as many names as options. */
  lemma {:induction false} NamesAreDistinctExactlyWhen(title: string, description: string, options: seq<MenuOption>)
    ensures |Names(options)| <= |options|
    ensures DistinctNames(Menu(title, description, options)) <==> |Names(options)| == |options|
  {
    if options != [] {
      var n := |options| - 1;
      var front := options[..n];
      NamesAreDistinctExactlyWhen(title, description, front);
      NamesOfOneMore(options);
      NameOfPrefix(front, options[n].name);
      assert forall i :: 0 <= i < n ==> front[i] == options[i];
      if DistinctNames(Menu(title, description, options)) {
        assert options[n].name !in Names(front);
      }
    }
  }

  /** After any call the record of its connection and role is the one it answers with, and every other pair has what it
      had; after a call that throws so has every pair. */
  lemma OnlyTheAnswerChanges(records: seq<Record>, op: Op, strict: bool, c: string, role: Role)
    requires Unique(records)
    ensures var o := Outcome(records, op, strict);
      Slot(Perform(records, op, strict), c, role) ==
      if o.Ok? && o.value.connectionId == c && o.value.role == role then Some(o.value) else Slot(records, c, role)
  {
    var o := Outcome(records, op, strict);
    if o.Ok? { SaveKeepsOthers(records, o.value); }
  }

  /** A request that is sent puts the requester, whatever it had, into a new thread that waits for a menu. */
  lemma SendingARequest(records: seq<Record>, connection: Connection, id: string, strict: bool)
    ensures var o := Outcome(records, CreateRequest(connection, id), strict);
      && (o.Err? <==> !connection.ready) && (o.Err? ==> o.error == ConnectionNotReady)
      && (o.Ok? ==> && o.value.connectionId == connection.id && o.value.role == Requester
                    && o.value.state == AwaitingRootMenu && o.value.threadId == id
                    && o.value.menu.None? && o.value.performed.None?)
  {
  }

  /** A request that is received restarts the responder: it prepares a menu, in the thread of the request if it has no
      record and under the request's own id if it has. */
  lemma ReceivingARequest(
    records: seq<Record>, connection: Connection, id: string, thread: string, strict: bool, prior: Option<Record>)
    requires Unique(records) && IsPrior(records, connection.id, Responder, prior)
    ensures var o := Outcome(records, ProcessRequest(connection, id, thread), strict);
      && (o.Err? <==> !connection.ready) && (o.Err? ==> o.error == ConnectionNotReady)
      && (o.Ok? ==> && o.value.connectionId == connection.id && o.value.role == Responder
                    && o.value.state == PreparingRootMenu
                    && (prior.None? ==> o.value.threadId == thread) && (prior.Some? ==> o.value.threadId == id)
                    && o.value.menu.None? && o.value.performed.None?)
  {
    SlotIsPrior(records, connection.id, Responder, prior);
  }

  /** A menu that is sent is kept, in a new thread for a new or a cleared record and in the record's thread otherwise. It
      fails for repeated names, and in strict mode while a request or a choice is awaited or a choice is prepared. */
  lemma SendingAMenu(
    records: seq<Record>, connection: Connection, id: string, menu: Menu, strict: bool, prior: Option<Record>)
    requires Unique(records) && IsPrior(records, connection.id, Responder, prior)
    ensures var o := Outcome(records, CreateMenu(connection, id, menu), strict);
      var distinct := |Names(menu.options)| == |menu.options|;
      var busy := strict && prior.Some? && prior.value.state in {AwaitingRootMenu, PreparingSelection, AwaitingSelection};
      && (o.Err? <==> !connection.ready || !distinct || busy)
      && (o.Err? ==> o.error == if !connection.ready then ConnectionNotReady
                                else if !distinct then DuplicatedOptions else InvalidState)
      && (o.Ok? ==> && o.value.connectionId == connection.id && o.value.role == Responder
                    && o.value.state == AwaitingSelection && o.value.menu == Some(menu)
                    && (prior.None? || prior.value.state == Null ==> o.value.threadId == id)
                    && (prior.Some? && prior.value.state != Null ==> o.value.threadId == prior.value.threadId)
                    && (prior.None? ==> o.value.performed.None?)
                    && (prior.Some? ==> o.value.performed == prior.value.performed))
  {
    SlotIsPrior(records, connection.id, Responder, prior);
    NamesAreDistinctExactlyWhen(menu.title, menu.description, menu.options);
  }

  /** A menu that is received is taken in every state, with its thread, and waits for a choice. */
  lemma ReceivingAMenu(records: seq<Record>, connection: Connection, thread: string, menu: Menu, strict: bool)
    ensures var o := Outcome(records, ProcessMenu(connection, thread, menu), strict);
      && (o.Err? <==> !connection.ready) && (o.Err? ==> o.error == ConnectionNotReady)
      && (o.Ok? ==> && o.value.connectionId == connection.id && o.value.role == Requester
                    && o.value.state == PreparingSelection && o.value.threadId == thread
                    && o.value.menu == Some(menu) && o.value.performed.None?)
  {
  }

  /** The name of an option of the menu the record has. */
  predicate IsOffered(r: Record, name: string) {
    r.menu.Some? && name in Names(r.menu.value.options)
  }

  lemma ValidSelectionIsOffered(r: Record, name: string)
    ensures ValidSelection(r.menu, name) <==> IsOffered(r, name)
  {
    if IsOffered(r, name) {
      var o :| o in r.menu.value.options && o.name == name;
      var i :| 0 <= i < |r.menu.value.options| && r.menu.value.options[i] == o;
    }
  }

  /** A choice that is sent is kept as the performed action, and ends the requester's part; everything else stays. Only a
      requester can choose, only what is offered, and in strict mode only while it prepares a choice. */
  lemma SendingAChoice(
    records: seq<Record>, c: string, role: Role, selection: Selection, strict: bool, prior: Option<Record>)
    requires Unique(records) && IsPrior(records, c, role, prior)
    ensures var o := Outcome(records, CreatePerform(c, role, selection), strict);
      && (o.Ok? <==> prior.Some? && role == Requester && (strict ==> prior.value.state == PreparingSelection)
                     && IsOffered(prior.value, selection.name))
      && (o.Err? ==> o.error == if prior.None? then RecordNotFound else if role != Requester then InvalidRole
                                else if strict && prior.value.state != PreparingSelection then InvalidState
                                else InvalidSelection)
      && (o.Ok? ==> && o.value.connectionId == c && o.value.role == Requester && o.value.state == Done
                    && o.value.threadId == prior.value.threadId && o.value.menu == prior.value.menu
                    && o.value.performed == Some(selection))
  {
    SlotIsPrior(records, c, role, prior);
    if prior.Some? { ValidSelectionIsOffered(prior.value, selection.name); }
  }

  /** A choice that is received in the thread of the record is kept as the performed action, and ends the responder's
      part; everything else stays. After a clear it is answered as cleared, in strict mode it is only taken while it is
      awaited, and it must be offered. */
  lemma ReceivingAChoice(records: seq<Record>, connection: Connection, thread: string, selection: Selection, strict: bool,
                         prior: Option<Record>)
    requires Unique(records) && IsPrior(records, connection.id, Responder, prior)
    ensures var o := Outcome(records, ProcessPerform(connection, thread, selection), strict);
      && (o.Ok? <==> connection.ready && prior.Some? && prior.value.threadId == thread && prior.value.state != Null
                     && (strict ==> prior.value.state == AwaitingSelection) && IsOffered(prior.value, selection.name))
      && (o.Err? ==> o.error == if !connection.ready then ConnectionNotReady
                                else if prior.None? || prior.value.threadId != thread then RecordNotFound
                                else if prior.value.state == Null then MenuCleared
                                else if strict && prior.value.state != AwaitingSelection then InvalidState
                                else InvalidSelection)
      && (o.Ok? ==> && o.value.connectionId == connection.id && o.value.role == Responder && o.value.state == Done
                    && o.value.threadId == thread && o.value.menu == prior.value.menu
                    && o.value.performed == Some(selection))
  {
    SlotIsPrior(records, connection.id, Responder, prior);
    if prior.Some? { ValidSelectionIsOffered(prior.value, selection.name); }
  }

  /** Clearing leaves the record without menu and performed action, in its thread. */
  lemma ClearingARecord(records: seq<Record>, c: string, role: Role, strict: bool, prior: Option<Record>)
    requires Unique(records) && IsPrior(records, c, role, prior)
    ensures var o := Outcome(records, ClearMenu(c, role), strict);
      && (o.Err? <==> prior.None?) && (o.Err? ==> o.error == RecordNotFound)
      && (o.Ok? ==> && o.value.connectionId == c && o.value.role == role && o.value.state == Null
                    && o.value.threadId == prior.value.threadId && o.value.menu.None? && o.value.performed.None?)
  {
    SlotIsPrior(records, c, role, prior);
  }

  /** A problem report clears the requester's record. */
  lemma ReceivingAProblemReport(records: seq<Record>, connection: Connection, strict: bool, prior: Option<Record>)
    requires Unique(records) && IsPrior(records, connection.id, Requester, prior)
    ensures var o := Outcome(records, ProcessProblemReport(connection), strict);
      && (o.Err? <==> !connection.ready || prior.None?)
      && (o.Err? ==> o.error == if !connection.ready then ConnectionNotReady else RecordNotFound)
      && (o.Ok? ==> && o.value.connectionId == connection.id && o.value.role == Requester && o.value.state == Null
                    && o.value.threadId == prior.value.threadId && o.value.menu.None? && o.value.performed.None?)
  {
    SlotIsPrior(records, connection.id, Requester, prior);
  }

  // ---- The service ----

  class ActionMenuService {
    const strictStateChecking: bool
    var records: seq<Record>

    ghost predicate Valid()
      reads this
    {
      Unique(records) && AllCoherent(records)
    }

    constructor (strictStateChecking: bool)
      ensures Valid() && records == [] && this.strictStateChecking == strictStateChecking
    {
      this.strictStateChecking := strictStateChecking;
      records := [];
    }

    method Find(c: string, role: Role, threadId: Option<string>) returns (found: Option<Record>)
      requires Unique(records)
      ensures var s := Slot(records, c, role);
              found == if s.Some? && (threadId.None? || s.value.threadId == threadId.value) then s else None
    {
      found := None;
      SlotIsMember(records, c, role);
      for i := 0 to |records|
        invariant found.Some? ==>
          found.value in records && SameKey(found.value, c, role)
          && (threadId.None? || found.value.threadId == threadId.value)
        invariant found.None? ==> forall k :: 0 <= k < i ==>
          !(SameKey(records[k], c, role) && (threadId.None? || records[k].threadId == threadId.value))
      {
        var r := records[i];
        if SameKey(r, c, role) && (threadId.None? || r.threadId == threadId.value) {
          found := Some(r);
        }
      }
      ghost var s := Slot(records, c, role);
      if s.Some? {
        var k :| 0 <= k < |records| && records[k] == s.value;
        if found.Some? {
          var l :| 0 <= l < |records| && records[l] == found.value;
          assert k == l;
        }
      }
    }

    method Store(r: Record)
      modifies this`records
      ensures records == Save(old(records), r)
    {
      var i := 0;
      while i < |records| && !SameKey(records[i], r.connectionId, r.role)
        invariant 0 <= i <= |records| && records == old(records)
        invariant Save(records, r) == records[..i] + Save(records[i..], r)
      {
        assert records[..i + 1] == records[..i] + [records[i]];
        assert records[i..][1..] == records[i + 1..];
        i := i + 1;
      }
      if i < |records| {
        assert records[i..] == [records[i]] + records[i + 1..];
        assert records[i..][1..] == records[i + 1..];
        records := records[i := r];
      } else {
        assert records[..i] == records;
        records := records + [r];
      }
    }

    method CreateRequest(connection: Connection, id: string) returns (res: Result<Record, Error>)
      requires Valid()
      modifies this`records
      ensures Valid()
      ensures res == Outcome(old(records), Op.CreateRequest(connection, id), strictStateChecking)
      ensures records == Perform(old(records), Op.CreateRequest(connection, id), strictStateChecking)
    {
      if !connection.ready { return Err(ConnectionNotReady); }
      SlotIsMember(records, connection.id, Requester);
      var found := Find(connection.id, Requester, None);
      var record: Record;
      if found.Some? {
        record := found.value.(state := AwaitingRootMenu, threadId := id, menu := None, performed := None);
      } else {
        record := Record(connection.id, Requester, AwaitingRootMenu, id, None, None);
      }
      Keep(Op.CreateRequest(connection, id), record);
      Store(record);
      res := Ok(record);
    }

    method ProcessRequest(connection: Connection, id: string, thread: string) returns (res: Result<Record, Error>)
      requires Valid()
      modifies this`records
      ensures Valid()
      ensures res == Outcome(old(records), Op.ProcessRequest(connection, id, thread), strictStateChecking)
      ensures records == Perform(old(records), Op.ProcessRequest(connection, id, thread), strictStateChecking)
    {
      if !connection.ready { return Err(ConnectionNotReady); }
      SlotIsMember(records, connection.id, Responder);
      var found := Find(connection.id, Responder, None);
      var record: Record;
      if found.Some? {
        record := found.value.(state := PreparingRootMenu, threadId := id, menu := None, performed := None);
      } else {
        record := Record(connection.id, Responder, PreparingRootMenu, thread, None, None);
      }
      Keep(Op.ProcessRequest(connection, id, thread), record);
      Store(record);
      res := Ok(record);
    }

    method CreateMenu(connection: Connection, id: string, menu: Menu) returns (res: Result<Record, Error>)
      requires Valid()
      modifies this`records
      ensures Valid()
      ensures res == Outcome(old(records), Op.CreateMenu(connection, id, menu), strictStateChecking)
      ensures records == Perform(old(records), Op.CreateMenu(connection, id, menu), strictStateChecking)
    {
      if !connection.ready { return Err(ConnectionNotReady); }
      if !DistinctNames(menu) { return Err(DuplicatedOptions); }
      var found := Find(connection.id, Responder, None);
      var record: Record;
      if found.Some? {
        record := found.value;
        if strictStateChecking && record.state !in {Null, PreparingRootMenu, Done} { return Err(InvalidState); }
        var threadId := id;
        if record.state != Null { threadId := record.threadId; }
        record := record.(menu := Some(menu), state := AwaitingSelection, threadId := threadId);
      } else {
        record := Record(connection.id, Responder, AwaitingSelection, id, Some(menu), None);
      }
      Keep(Op.CreateMenu(connection, id, menu), record);
      Store(record);
      res := Ok(record);
    }

    method ProcessMenu(connection: Connection, thread: string, menu: Menu) returns (res: Result<Record, Error>)
      requires Valid()
      modifies this`records
      ensures Valid()
      ensures res == Outcome(old(records), Op.ProcessMenu(connection, thread, menu), strictStateChecking)
      ensures records == Perform(old(records), Op.ProcessMenu(connection, thread, menu), strictStateChecking)
    {
      if !connection.ready { return Err(ConnectionNotReady); }
      SlotIsMember(records, connection.id, Requester);
      var found := Find(connection.id, Requester, None);
      var record: Record;
      if found.Some? {
        record := found.value.(
          state := PreparingSelection, menu := Some(menu), threadId := thread, performed := None);
      } else {
        record := Record(connection.id, Requester, PreparingSelection, thread, Some(menu), None);
      }
      Keep(Op.ProcessMenu(connection, thread, menu), record);
      Store(record);
      res := Ok(record);
    }

    method CreatePerform(c: string, role: Role, selection: Selection) returns (res: Result<Record, Error>)
      requires Valid()
      modifies this`records
      ensures Valid()
      ensures res == Outcome(old(records), Op.CreatePerform(c, role, selection), strictStateChecking)
      ensures records == Perform(old(records), Op.CreatePerform(c, role, selection), strictStateChecking)
    {
      var found := Find(c, role, None);
      if found.None? { return Err(RecordNotFound); }
      var record := found.value;
      if record.role != Requester { return Err(InvalidRole); }
      if strictStateChecking && record.state != PreparingSelection { return Err(InvalidState); }
      if !ValidSelection(record.menu, selection.name) { return Err(InvalidSelection); }
      record := record.(performed := Some(selection), state := Done);
      Keep(Op.CreatePerform(c, role, selection), record);
      Store(record);
      res := Ok(record);
    }

    method ProcessPerform(connection: Connection, thread: string, selection: Selection)
      returns (res: Result<Record, Error>)
      requires Valid()
      modifies this`records
      ensures Valid()
      ensures res == Outcome(old(records), Op.ProcessPerform(connection, thread, selection), strictStateChecking)
      ensures records == Perform(old(records), Op.ProcessPerform(connection, thread, selection), strictStateChecking)
    {
      if !connection.ready { return Err(ConnectionNotReady); }
      var found := Find(connection.id, Responder, Some(thread));
      if found.None? { return Err(RecordNotFound); }
      var record := found.value;
      if record.state == Null { return Err(MenuCleared); }
      if strictStateChecking && record.state != AwaitingSelection { return Err(InvalidState); }
      if !ValidSelection(record.menu, selection.name) { return Err(InvalidSelection); }
      record := record.(state := Done, performed := Some(selection));
      Keep(Op.ProcessPerform(connection, thread, selection), record);
      Store(record);
      res := Ok(record);
    }

    method ClearMenu(c: string, role: Role) returns (res: Result<Record, Error>)
      requires Valid()
      modifies this`records
      ensures Valid()
      ensures res == Outcome(old(records), Op.ClearMenu(c, role), strictStateChecking)
      ensures records == Perform(old(records), Op.ClearMenu(c, role), strictStateChecking)
    {
      var found := Find(c, role, None);
      if found.None? { return Err(RecordNotFound); }
      var record := found.value.(state := Null, menu := None, performed := None);
      Keep(Op.ClearMenu(c, role), record);
      Store(record);
      res := Ok(record);
    }

    method ProcessProblemReport(connection: Connection) returns (res: Result<Record, Error>)
      requires Valid()
      modifies this`records
      ensures Valid()
      ensures res == Outcome(old(records), Op.ProcessProblemReport(connection), strictStateChecking)
      ensures records == Perform(old(records), Op.ProcessProblemReport(connection), strictStateChecking)
    {
      if !connection.ready { return Err(ConnectionNotReady); }
      res := ClearMenu(connection.id, Requester);
    }

    // Saving the record a call promises leaves the service valid.
    lemma Keep(op: Op, r: Record)
      requires Valid() && Outcome(records, op, strictStateChecking) == Ok(r)
      ensures Unique(Save(records, r)) && AllCoherent(Save(records, r))
    {
      OutcomeIsCoherent(records, op, strictStateChecking);
      SaveKeepsOthers(records, r);
      var after := Save(records, r);
      forall i | 0 <= i < |after| ensures Coherent(after[i]) {
        assert after[i] in after;
      }
    }
  }
}
