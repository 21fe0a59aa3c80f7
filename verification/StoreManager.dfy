/** The store manager of one store-level context: every interleaving of calls that open, provision, initialise and
    close the store. A step runs one call from one await to the next. */
module StoreManager {
  import opened Wrappers

  type Handle = nat

  datatype Error = AlreadyOpened | NoOpenStore | AlreadyRegistered | Duplicate | NotFound | OtherError

  type Reply = Result<Handle, Error>

  /** Which call a worker runs; `SharedInit` is an initialisation shared through `storeInitializations`. */
  datatype Kind = OpenCall | ProvisionCall | SharedInit | CloseCall

  /** What a worker is waiting for. */
  datatype Phase =
    | OpenConfig
    | OpenNative
    | Register(h: Handle, provisioned: bool)
    | ClosingLoser(h: Handle)
    | ProvisionConfig
    | ProvisionNative
    | VersionSession(h: Handle)
    | VersionJoin(h: Handle, joined: nat)
    | CloseConfig(h: Handle)
    | CloseNative(h: Handle)
    | Settled(r: Reply)
    | Caught(r: Reply)
    | Finished(r: Reply)

  datatype Worker = Worker(kind: Kind, phase: Phase)

  /** A call that needs an initialised store. */
  datatype Session = Waiting(worker: nat) | Got(r: Reply)

  /** `live` are the native stores that are open, `unclosed` those whose close failed while they were discarded. */
  datatype Manager = Manager(
    registered: Option<Handle>,
    shared: Option<nat>,
    workers: seq<Worker>,
    sessions: seq<Session>,
    live: set<Handle>,
    unclosed: set<Handle>,
    next: Handle)

  /** How the awaited operation ends. `Missing` says whether the agent context is initialised at that moment. */
  datatype Outcome = Succeeds | Missing(initialized: bool) | Exists | Fails

  datatype Step =
    | CallOpen
    | CallProvision
    | CallInitialized
    | CallClose
    | Advance(worker: nat, outcome: Outcome)
    | Deliver(session: nat)

  const START: Manager := Manager(None, None, [], [], {}, {}, 0)

  function Settle(kind: Kind, r: Reply): Phase {
    if kind.SharedInit? then Settled(r) else Finished(r)
  }

  function Set(m: Manager, w: nat, phase: Phase): Manager
    requires w < |m.workers|
  {
    m.(workers := m.workers[w := m.workers[w].(phase := phase)])
  }

  function Spawn(m: Manager, kind: Kind, phase: Phase): Manager {
    m.(workers := m.workers + [Worker(kind, phase)])
  }

  /** Joins the initialisation in progress, or starts one. */
  function Initialize(m: Manager): (Manager, nat) {
    if m.shared.Some? then (m, m.shared.value)
    else (Spawn(m, SharedInit, OpenConfig).(shared := Some(|m.workers|)), |m.workers|)
  }

  predicate Closing(m: Manager) {
    exists i :: 0 <= i < |m.workers| && (m.workers[i].phase.CloseConfig? || m.workers[i].phase.CloseNative?)
  }

  function AdvanceWorker(m: Manager, w: nat, o: Outcome): Manager
    requires w < |m.workers|
  {
    var kind := m.workers[w].kind;
    match m.workers[w].phase
    case OpenConfig =>
      if o.Succeeds? then Set(m, w, OpenNative) else Set(m, w, Settle(kind, Err(OtherError)))
    case OpenNative =>
      if o.Succeeds? then Set(m, w, Register(m.next, false)).(live := m.live + {m.next}, next := m.next + 1)
      else if o.Missing? then
        Set(m, w, if kind.SharedInit? && o.initialized then ProvisionConfig else Settle(kind, Err(NotFound)))
      else Set(m, w, Settle(kind, Err(OtherError)))
    case Register(h, provisioned) =>
      if m.registered.Some? then Set(m, w, ClosingLoser(h))
      else Set(m, w, if provisioned then VersionSession(h) else Settle(kind, Ok(h))).(registered := Some(h))
    case ClosingLoser(h) =>
      var m' := Set(m, w, Settle(kind, Err(AlreadyRegistered)));
      if o.Succeeds? then m'.(live := m.live - {h}) else m'.(unclosed := m.unclosed + {h})
    case ProvisionConfig =>
      if !o.Succeeds? then Set(m, w, Settle(kind, Err(OtherError)))
      else if m.registered.Some? then Set(m, w, Settle(kind, Err(Duplicate)))
      else Set(m, w, ProvisionNative)
    case ProvisionNative =>
      if o.Succeeds? then Set(m, w, Register(m.next, true)).(live := m.live + {m.next}, next := m.next + 1)
      else Set(m, w, Settle(kind, Err(if o.Exists? then Duplicate else OtherError)))
    case VersionSession(h) =>
      if m.registered.None? then
        var (m', joined) := Initialize(m);
        Set(m', w, VersionJoin(h, joined))
      else Set(m, w, Settle(kind, if o.Succeeds? then Ok(h) else Err(if o.Exists? then Duplicate else OtherError)))
    case VersionJoin(h, joined) =>
      if joined >= |m.workers| || !m.workers[joined].phase.Finished? then m
      else if m.workers[joined].phase.r.Err? then Set(m, w, Settle(kind, m.workers[joined].phase.r))
      else Set(m, w, Settle(kind, if o.Succeeds? then Ok(h) else Err(if o.Exists? then Duplicate else OtherError)))
    case CloseConfig(h) =>
      Set(m, w, if o.Succeeds? then CloseNative(h) else Finished(Err(OtherError)))
    case CloseNative(h) =>
      if o.Succeeds? then Set(m, w, Finished(Ok(h))).(live := m.live - {h}, registered := None)
      else Set(m, w, Finished(Err(OtherError)))
    case Settled(r) =>
      Set(m, w, Caught(
        if m.registered.Some? && (r == Err(AlreadyRegistered) || r == Err(Duplicate)) then Ok(m.registered.value)
        else r))
    case Caught(r) =>
      Set(m, w, Finished(r)).(shared := None)
    case Finished(_) => m
  }

  /** One step. With `serialCloses` no close starts while another one runs. */
  function Next(serialCloses: bool, m: Manager, step: Step): Manager {
    match step
    case CallOpen =>
      Spawn(m, OpenCall, if m.registered.Some? then Finished(Err(AlreadyOpened)) else OpenConfig)
    case CallProvision =>
      Spawn(m, ProvisionCall, ProvisionConfig)
    case CallInitialized =>
      if m.registered.Some? then m.(sessions := m.sessions + [Got(Ok(m.registered.value))])
      else
        var (m', w) := Initialize(m);
        m'.(sessions := m.sessions + [Waiting(w)])
    case CallClose =>
      if serialCloses && Closing(m) then m
      else Spawn(m, CloseCall,
                 if m.registered.Some? then CloseConfig(m.registered.value) else Finished(Err(NoOpenStore)))
    case Advance(w, o) =>
      if w < |m.workers| then AdvanceWorker(m, w, o) else m
    case Deliver(s) =>
      if s < |m.sessions| && m.sessions[s].Waiting? && m.sessions[s].worker < |m.workers|
         && m.workers[m.sessions[s].worker].phase.Finished?
      then m.(sessions := m.sessions[s := Got(m.workers[m.sessions[s].worker].phase.r)])
      else m
  }

  function Run(serialCloses: bool, steps: seq<Step>): Manager {
    if steps == [] then START
    else Next(serialCloses, Run(serialCloses, steps[..|steps| - 1]), steps[|steps| - 1])
  }

  // ---- No handle is leaked ----

  /** The store a worker opened and neither registered nor closed yet. */
  function Held(w: Worker): Option<Handle> {
    if w.phase.Register? || w.phase.ClosingLoser? then Some(w.phase.h) else None
  }

  /** The store a worker is about to close and unregister. */
  function Closes(w: Worker): Option<Handle> {
    if w.phase.CloseConfig? || w.phase.CloseNative? then Some(w.phase.h) else None
  }

  ghost predicate HeldBySome(m: Manager, h: Handle) {
    exists i :: 0 <= i < |m.workers| && Held(m.workers[i]) == Some(h)
  }

  /** Every open store is the registered one, held by a call in flight, or one whose close failed. */
  ghost predicate NoLeak(m: Manager) {
    forall h :: h in m.live ==> m.registered == Some(h) || HeldBySome(m, h) || h in m.unclosed
  }

  /** No call is in flight. */
  ghost predicate Quiet(m: Manager) {
    forall i :: 0 <= i < |m.workers| ==> m.workers[i].phase.Finished?
  }

  ghost predicate Numbered(m: Manager) {
    && (forall h :: h in m.live ==> h < m.next)
    && m.unclosed <= m.live
    && (m.registered.Some? ==> m.registered.value in m.live && m.registered.value !in m.unclosed)
    && (forall i :: 0 <= i < |m.workers| && Held(m.workers[i]).Some? ==>
          var h := Held(m.workers[i]).value; h in m.live && h !in m.unclosed && m.registered != Some(h))
    && (forall i, j :: 0 <= i < j < |m.workers| && Held(m.workers[i]).Some? ==>
          Held(m.workers[i]) != Held(m.workers[j]))
  }

  // A close in flight closes the registered store, and it is the only one.
  ghost predicate ClosesSerial(m: Manager) {
    && (forall i :: 0 <= i < |m.workers| && Closes(m.workers[i]).Some? ==> m.registered == Closes(m.workers[i]))
    && (forall i, j :: 0 <= i < j < |m.workers| && Closes(m.workers[i]).Some? ==> Closes(m.workers[j]).None?)
  }

  // A store that is about to be closed was registered once: no call holds it and no failed close left it open.
  ghost predicate ClosesRegistered(m: Manager) {
    forall i :: 0 <= i < |m.workers| && Closes(m.workers[i]).Some? ==>
      var h := Closes(m.workers[i]).value;
      h < m.next && h !in m.unclosed && !HeldBySome(m, h)
  }

  ghost predicate LeakInv(m: Manager) {
    NoLeak(m) && Numbered(m) && ClosesRegistered(m)
  }

  // Nothing about open stores changed, except that a worker may have given up closing.
  ghost predicate SameHoldings(m: Manager, m': Manager) {
    && m'.registered == m.registered && m'.live == m.live && m'.unclosed == m.unclosed && m'.next == m.next
    && |m.workers| <= |m'.workers|
    && (forall i :: 0 <= i < |m.workers| ==>
          && Held(m'.workers[i]) == Held(m.workers[i])
          && (Closes(m'.workers[i]).Some? ==> Closes(m'.workers[i]) == Closes(m.workers[i])))
    && (forall i :: |m.workers| <= i < |m'.workers| ==> Held(m'.workers[i]).None? && Closes(m'.workers[i]).None?)
  }

  lemma SameHoldingsKeepLeakInv(m: Manager, m': Manager)
    requires LeakInv(m) && SameHoldings(m, m')
    ensures LeakInv(m')
  {
    forall h | h in m'.live ensures m'.registered == Some(h) || HeldBySome(m', h) || h in m'.unclosed {
      if HeldBySome(m, h) {
        var i :| 0 <= i < |m.workers| && Held(m.workers[i]) == Some(h);
        assert Held(m'.workers[i]) == Some(h);
      }
    }
    SameHoldingsKeepClosesRegistered(m, m');
  }

  lemma SameHoldingsKeepClosesRegistered(m: Manager, m': Manager)
    requires ClosesRegistered(m) && SameHoldings(m, m')
    ensures ClosesRegistered(m')
  {
    forall i | 0 <= i < |m'.workers| && Closes(m'.workers[i]).Some? ensures !HeldBySome(m', Closes(m'.workers[i]).value) {
      assert i < |m.workers| && Closes(m.workers[i]) == Closes(m'.workers[i]);
      forall j | 0 <= j < |m'.workers| ensures Held(m'.workers[j]) != Closes(m'.workers[i]) {
        if j < |m.workers| && Held(m.workers[j]) == Closes(m.workers[i]) {
          assert HeldBySome(m, Closes(m.workers[i]).value);
        }
      }
    }
  }

  // A worker that closes nothing and holds at most a store it held before, or a new one.
  lemma OthersKeepClosesRegistered(m: Manager, m': Manager, w: nat)
    requires ClosesRegistered(m) && w < |m.workers| && |m'.workers| == |m.workers| && m.next <= m'.next
    requires forall i :: 0 <= i < |m.workers| && i != w ==> m'.workers[i] == m.workers[i]
    requires Closes(m'.workers[w]).None?
    requires var h := Held(m'.workers[w]); h.None? || h == Held(m.workers[w]) || h.value >= m.next
    requires forall h :: h in m'.unclosed ==> h in m.unclosed || Held(m.workers[w]) == Some(h)
    ensures ClosesRegistered(m')
  {
    forall i | 0 <= i < |m'.workers| && Closes(m'.workers[i]).Some?
      ensures var h := Closes(m'.workers[i]).value; h !in m'.unclosed && !HeldBySome(m', h)
    {
      var h := Closes(m.workers[i]).value;
      assert !HeldBySome(m, h);
      forall j | 0 <= j < |m'.workers| ensures Held(m'.workers[j]) != Some(h) {
        assert Held(m.workers[j]) != Some(h);
      }
    }
  }

  // A worker's own change of holdings; all the others keep theirs.
  lemma OthersKeepHoldings(m: Manager, m': Manager, w: nat)
    requires NoLeak(m) && w < |m.workers| && |m'.workers| == |m.workers|
    requires forall i :: 0 <= i < |m.workers| && i != w ==> m'.workers[i] == m.workers[i]
    requires forall h :: h in m'.live ==>
      || m'.registered == Some(h) || h in m'.unclosed || Held(m'.workers[w]) == Some(h)
      || (h in m.live && m.registered != Some(h) && h !in m.unclosed && Held(m.workers[w]) != Some(h))
    ensures NoLeak(m')
  {
    forall h | h in m'.live ensures m'.registered == Some(h) || HeldBySome(m', h) || h in m'.unclosed {
      if Held(m'.workers[w]) == Some(h) {
        assert HeldBySome(m', h);
      } else if m'.registered != Some(h) && h !in m'.unclosed {
        var i :| 0 <= i < |m.workers| && Held(m.workers[i]) == Some(h);
        assert Held(m'.workers[i]) == Some(h);
      }
    }
  }

  lemma OpeningKeepsLeakInv(m: Manager, w: nat, provisioned: bool)
    requires LeakInv(m) && w < |m.workers| && Held(m.workers[w]).None? && Closes(m.workers[w]).None?
    ensures LeakInv(Set(m, w, Register(m.next, provisioned)).(live := m.live + {m.next}, next := m.next + 1))
  {
    var m' := Set(m, w, Register(m.next, provisioned)).(live := m.live + {m.next}, next := m.next + 1);
    OthersKeepHoldings(m, m', w);
    OthersKeepClosesRegistered(m, m', w);
  }

  lemma RegisteringKeepsLeakInv(m: Manager, w: nat, phase: Phase)
    requires LeakInv(m) && w < |m.workers| && m.workers[w].phase.Register? && m.registered.None?
    requires Held(Worker(OpenCall, phase)).None? && Closes(Worker(OpenCall, phase)).None?
    ensures LeakInv(Set(m, w, phase).(registered := Some(m.workers[w].phase.h)))
  {
    var m' := Set(m, w, phase).(registered := Some(m.workers[w].phase.h));
    OthersKeepHoldings(m, m', w);
    OthersKeepClosesRegistered(m, m', w);
  }

  lemma DiscardingKeepsLeakInv(m: Manager, w: nat, o: Outcome)
    requires LeakInv(m) && w < |m.workers| && m.workers[w].phase.ClosingLoser?
    ensures LeakInv(AdvanceWorker(m, w, o))
  {
    OthersKeepHoldings(m, AdvanceWorker(m, w, o), w);
    OthersKeepClosesRegistered(m, AdvanceWorker(m, w, o), w);
  }

  /** A step that closes one store and unregisters another. */
  predicate UnregistersAnother(m: Manager, step: Step) {
    && step.Advance? && step.worker < |m.workers| && step.outcome.Succeeds?
    && m.workers[step.worker].phase.CloseNative?
    && m.registered.Some? && m.registered.value != m.workers[step.worker].phase.h
  }

  lemma ClosingKeepsLeakInv(m: Manager, w: nat)
    requires LeakInv(m) && w < |m.workers| && m.workers[w].phase.CloseNative?
    requires !UnregistersAnother(m, Advance(w, Succeeds))
    ensures LeakInv(AdvanceWorker(m, w, Succeeds))
  {
    var m', h := AdvanceWorker(m, w, Succeeds), m.workers[w].phase.h;
    OthersKeepHoldings(m, m', w);
    OthersKeepClosesRegistered(m, m', w);
    assert Closes(m.workers[w]) == Some(h) && !HeldBySome(m, h);
    forall i | 0 <= i < |m'.workers| && Held(m'.workers[i]).Some? ensures Held(m'.workers[i]).value in m'.live {
      assert Held(m.workers[i]) == Held(m'.workers[i]);
    }
  }

  /** The store it unregisters stays open and nobody holds it. */
  lemma UnregisteringAnotherLeaks(serialCloses: bool, m: Manager, step: Step)
    requires LeakInv(m) && UnregistersAnother(m, step)
    ensures !NoLeak(Next(serialCloses, m, step))
  {
    var m', other := Next(serialCloses, m, step), m.registered.value;
    forall i | 0 <= i < |m'.workers| ensures Held(m'.workers[i]) != Some(other) {
      if i != step.worker { assert m'.workers[i] == m.workers[i]; }
    }
    assert other in m'.live && !HeldBySome(m', other);
  }

  lemma StartingCloseKeepsHeld(m: Manager, serialCloses: bool)
    ensures var m' := Next(serialCloses, m, CallClose);
      && |m.workers| <= |m'.workers| <= |m.workers| + 1
      && (forall i :: 0 <= i < |m.workers| ==> m'.workers[i] == m.workers[i])
      && forall h: Handle :: HeldBySome(m, h) <==> HeldBySome(m', h)
  {
    var m' := Next(serialCloses, m, CallClose);
    assert forall i :: 0 <= i < |m.workers| ==> m'.workers[i] == m.workers[i];
    forall h: Handle ensures HeldBySome(m, h) <==> HeldBySome(m', h) {
      if i :| 0 <= i < |m.workers| && Held(m.workers[i]) == Some(h) { assert Held(m'.workers[i]) == Some(h); }
      if i :| 0 <= i < |m'.workers| && Held(m'.workers[i]) == Some(h) { assert Held(m.workers[i]) == Some(h); }
    }
  }

  lemma StartingCloseKeepsLeakInv(m: Manager, serialCloses: bool)
    requires LeakInv(m)
    ensures LeakInv(Next(serialCloses, m, CallClose))
  {
    StartingCloseKeepsHeld(m, serialCloses);
  }

  // The phases in which a worker only learns something.
  lemma LearningKeepsHoldings(m: Manager, w: nat, o: Outcome)
    requires w < |m.workers|
    requires var phase := m.workers[w].phase;
             && !phase.ClosingLoser? && (phase.Register? ==> m.registered.Some?)
             && (phase.OpenNative? || phase.ProvisionNative? || phase.CloseNative? ==> !o.Succeeds?)
    ensures SameHoldings(m, AdvanceWorker(m, w, o))
  {
    var phase, kind := m.workers[w].phase, m.workers[w].kind;
    if phase.VersionSession? && m.registered.None? {
      var (m1, joined) := Initialize(m);
      var m2 := AdvanceWorker(m, w, o);
      assert m2.workers == m1.workers[w := m1.workers[w].(phase := VersionJoin(phase.h, joined))];
    } else {
      var m2 := AdvanceWorker(m, w, o);
      assert |m2.workers| == |m.workers| && forall i :: 0 <= i < |m.workers| && i != w ==> m2.workers[i] == m.workers[i];
    }
  }

  lemma AdvanceKeepsLeakInv(m: Manager, w: nat, o: Outcome)
    requires LeakInv(m) && w < |m.workers| && !UnregistersAnother(m, Advance(w, o))
    ensures LeakInv(AdvanceWorker(m, w, o))
  {
    var phase := m.workers[w].phase;
    if phase.OpenNative? && o.Succeeds? {
      OpeningKeepsLeakInv(m, w, false);
    } else if phase.ProvisionNative? && o.Succeeds? {
      OpeningKeepsLeakInv(m, w, true);
    } else if phase.Register? && m.registered.None? {
      RegisteringKeepsLeakInv(m, w,
        if phase.provisioned then VersionSession(phase.h) else Settle(m.workers[w].kind, Ok(phase.h)));
    } else if phase.ClosingLoser? {
      DiscardingKeepsLeakInv(m, w, o);
    } else if phase.CloseNative? && o.Succeeds? {
      ClosingKeepsLeakInv(m, w);
    } else {
      LearningKeepsHoldings(m, w, o);
      SameHoldingsKeepLeakInv(m, AdvanceWorker(m, w, o));
    }
  }

  lemma StepKeepsLeakInv(serialCloses: bool, m: Manager, step: Step)
    requires LeakInv(m) && !UnregistersAnother(m, step)
    ensures LeakInv(Next(serialCloses, m, step))
  {
    if step.Advance? && step.worker < |m.workers| {
      AdvanceKeepsLeakInv(m, step.worker, step.outcome);
    } else if step.CallClose? {
      StartingCloseKeepsLeakInv(m, serialCloses);
    } else {
      SameHoldingsKeepLeakInv(m, Next(serialCloses, m, step));
    }
  }

  /** No step of a run closes one store and unregisters another. */
  ghost predicate ClosesItsOwn(serialCloses: bool, steps: seq<Step>) {
    forall k :: 0 <= k < |steps| ==> !UnregistersAnother(Run(serialCloses, steps[..k]), steps[k])
  }

  ghost predicate NeverLeaks(serialCloses: bool, steps: seq<Step>) {
    forall k :: 0 <= k <= |steps| ==> NoLeak(Run(serialCloses, steps[..k]))
  }

  lemma {:induction false} OwnClosesKeepLeakInv(serialCloses: bool, steps: seq<Step>)
    requires ClosesItsOwn(serialCloses, steps)
    ensures LeakInv(Run(serialCloses, steps))
  {
    if steps != [] {
      var n := |steps| - 1;
      forall k | 0 <= k < n ensures !UnregistersAnother(Run(serialCloses, steps[..n][..k]), steps[..n][k]) {
        assert steps[..n][..k] == steps[..k];
      }
      OwnClosesKeepLeakInv(serialCloses, steps[..n]);
      StepKeepsLeakInv(serialCloses, Run(serialCloses, steps[..n]), steps[n]);
    }
  }

  lemma {:induction false} SomeCloseIsTheFirst(serialCloses: bool, steps: seq<Step>) returns (n: nat)
    requires !ClosesItsOwn(serialCloses, steps)
    ensures n < |steps| && ClosesItsOwn(serialCloses, steps[..n])
    ensures UnregistersAnother(Run(serialCloses, steps[..n]), steps[n])
  {
    var k :| 0 <= k < |steps| && UnregistersAnother(Run(serialCloses, steps[..k]), steps[k]);
    if ClosesItsOwn(serialCloses, steps[..k]) {
      n := k;
    } else {
      n := SomeCloseIsTheFirst(serialCloses, steps[..k]);
      assert steps[..k][..n] == steps[..n];
    }
  }

  lemma OwnClosesNeverLeak(serialCloses: bool, steps: seq<Step>)
    requires ClosesItsOwn(serialCloses, steps)
    ensures NeverLeaks(serialCloses, steps)
  {
    forall k | 0 <= k <= |steps| ensures NoLeak(Run(serialCloses, steps[..k])) {
      forall j | 0 <= j < k ensures !UnregistersAnother(Run(serialCloses, steps[..k][..j]), steps[..k][j]) {
        assert steps[..k][..j] == steps[..j];
      }
      OwnClosesKeepLeakInv(serialCloses, steps[..k]);
    }
  }

  /** A run leaks a store at some point exactly when some close succeeds while another store than the one it closes is
      registered. In a run without such a close, once every call settled, the stores still open are the registered one
      and those whose close failed. */
  lemma LeaksExactlyWhenACloseUnregistersAnother(serialCloses: bool, steps: seq<Step>)
    ensures NeverLeaks(serialCloses, steps) <==> ClosesItsOwn(serialCloses, steps)
    ensures ClosesItsOwn(serialCloses, steps) && Quiet(Run(serialCloses, steps)) ==>
      var m := Run(serialCloses, steps);
      m.live == (if m.registered.Some? then {m.registered.value} else {}) + m.unclosed
  {
    if ClosesItsOwn(serialCloses, steps) {
      OwnClosesNeverLeak(serialCloses, steps);
      OwnClosesKeepLeakInv(serialCloses, steps);
    } else {
      var n := SomeCloseIsTheFirst(serialCloses, steps);
      OwnClosesKeepLeakInv(serialCloses, steps[..n]);
      UnregisteringAnotherLeaks(serialCloses, Run(serialCloses, steps[..n]), steps[n]);
      RunStep(serialCloses, steps, n);
      assert !NoLeak(Run(serialCloses, steps[..n + 1]));
    }
  }

  // ---- Closes that do not overlap ----

  lemma SerialStepKeepsClosesSerial(m: Manager, step: Step)
    requires LeakInv(m) && ClosesSerial(m)
    ensures ClosesSerial(Next(true, m, step))
  {
    var m' := Next(true, m, step);
    if step.Advance? && step.worker < |m.workers| {
      AdvanceKeepsClosesSerial(m, step.worker, step.outcome);
    } else {
      assert forall i :: 0 <= i < |m.workers| ==> m'.workers[i] == m.workers[i];
    }
  }

  lemma FewerClosesAreSerial(m: Manager, m': Manager)
    requires ClosesSerial(m) && |m.workers| <= |m'.workers|
    requires forall i :: 0 <= i < |m.workers| && Closes(m'.workers[i]).Some? ==>
               Closes(m'.workers[i]) == Closes(m.workers[i])
    requires forall i :: |m.workers| <= i < |m'.workers| ==> Closes(m'.workers[i]).None?
    requires m'.registered == m.registered || forall i :: 0 <= i < |m.workers| ==> Closes(m'.workers[i]).None?
    ensures ClosesSerial(m')
  {
  }

  lemma AdvanceKeepsOtherWorkers(m: Manager, w: nat, o: Outcome)
    requires w < |m.workers|
    ensures var m' := AdvanceWorker(m, w, o);
      && |m.workers| <= |m'.workers|
      && (forall i :: 0 <= i < |m.workers| && i != w ==> m'.workers[i] == m.workers[i])
  {
  }

  lemma AdvanceStartsNoClose(m: Manager, w: nat, o: Outcome)
    requires w < |m.workers|
    ensures var m' := AdvanceWorker(m, w, o);
      && |m.workers| <= |m'.workers|
      && (forall i :: |m.workers| <= i < |m'.workers| ==> Closes(m'.workers[i]).None?)
      && (Closes(m'.workers[w]).Some? ==> Closes(m'.workers[w]) == Closes(m.workers[w]))
  {
  }

  lemma AdvanceKeepsClosesSerial(m: Manager, w: nat, o: Outcome)
    requires ClosesSerial(m) && w < |m.workers|
    ensures ClosesSerial(AdvanceWorker(m, w, o))
  {
    AdvanceKeepsOtherWorkers(m, w, o);
    AdvanceStartsNoClose(m, w, o);
    FewerClosesAreSerial(m, AdvanceWorker(m, w, o));
  }

  lemma SerialStepClosesItsOwn(m: Manager, step: Step)
    requires ClosesSerial(m)
    ensures !UnregistersAnother(m, step)
  {
    assert UnregistersAnother(m, step) ==> Closes(m.workers[step.worker]).Some?;
  }

  lemma OneMoreClosesItsOwn(serialCloses: bool, steps: seq<Step>)
    requires steps != [] && ClosesItsOwn(serialCloses, steps[..|steps| - 1])
    requires !UnregistersAnother(Run(serialCloses, steps[..|steps| - 1]), steps[|steps| - 1])
    ensures ClosesItsOwn(serialCloses, steps)
  {
    var front := steps[..|steps| - 1];
    forall k | 0 <= k < |steps| ensures !UnregistersAnother(Run(serialCloses, steps[..k]), steps[k]) {
      if k < |front| { assert front[..k] == steps[..k] && front[k] == steps[k]; }
    }
  }

  lemma {:induction false} SerialRunKeepsLeakInv(steps: seq<Step>)
    ensures LeakInv(Run(true, steps)) && ClosesSerial(Run(true, steps)) && ClosesItsOwn(true, steps)
  {
    if steps != [] {
      var n := |steps| - 1;
      var m := Run(true, steps[..n]);
      SerialRunKeepsLeakInv(steps[..n]);
      SerialStepClosesItsOwn(m, steps[n]);
      StepKeepsLeakInv(true, m, steps[n]);
      SerialStepKeepsClosesSerial(m, steps[n]);
      OneMoreClosesItsOwn(true, steps);
    }
  }

  // Two closes that overlap, with an open in between.
  const OVERLAP: seq<Step> := [
    CallOpen, Advance(0, Succeeds), Advance(0, Succeeds), Advance(0, Succeeds),
    CallClose, CallClose, Advance(1, Succeeds), Advance(1, Succeeds),
    CallOpen, Advance(3, Succeeds), Advance(3, Succeeds), Advance(3, Succeeds),
    Advance(2, Succeeds), Advance(2, Succeeds)]

  lemma RunStep(serialCloses: bool, steps: seq<Step>, k: nat)
    requires k < |steps|
    ensures Run(serialCloses, steps[..k + 1]) == Next(serialCloses, Run(serialCloses, steps[..k]), steps[k])
  {
    assert steps[..k + 1][..k] == steps[..k];
  }

  lemma CallsOfOpen(m: Manager)
    requires m.registered.None?
    ensures Next(false, m, CallOpen) == m.(workers := m.workers + [Worker(OpenCall, OpenConfig)])
    ensures Next(false, Next(false, m, CallOpen), Advance(|m.workers|, Succeeds))
         == m.(workers := m.workers + [Worker(OpenCall, OpenNative)])
  {
    var m1 := m.(workers := m.workers + [Worker(OpenCall, OpenConfig)]);
    assert Next(false, m, CallOpen) == m1;
    assert m1.workers[|m.workers| := Worker(OpenCall, OpenNative)] == m.workers + [Worker(OpenCall, OpenNative)];
  }

  lemma OpenedStoreIsRegistered(m: Manager, workers: seq<Worker>)
    requires m.registered.None? && m.workers == workers + [Worker(OpenCall, OpenNative)]
    ensures Next(false, Next(false, m, Advance(|workers|, Succeeds)), Advance(|workers|, Succeeds))
         == m.(registered := Some(m.next), live := m.live + {m.next}, next := m.next + 1,
               workers := workers + [Worker(OpenCall, Finished(Ok(m.next)))])
  {
    var w := |workers|;
    var m1 := m.(live := m.live + {m.next}, next := m.next + 1,
                 workers := workers + [Worker(OpenCall, Register(m.next, false))]);
    assert m.workers[w := Worker(OpenCall, Register(m.next, false))] == m1.workers;
    assert Next(false, m, Advance(w, Succeeds)) == m1;
    assert m1.workers[w := Worker(OpenCall, Finished(Ok(m.next)))]
        == workers + [Worker(OpenCall, Finished(Ok(m.next)))];
  }

  lemma OpenCompletes(steps: seq<Step>, k: nat)
    requires k + 4 <= |steps|
    requires Run(false, steps[..k]).registered.None?
    requires steps[k] == CallOpen
    requires forall i :: k < i < k + 4 ==> steps[i] == Advance(|Run(false, steps[..k]).workers|, Succeeds)
    ensures var m := Run(false, steps[..k]);
            Run(false, steps[..k + 4]) ==
              m.(registered := Some(m.next), live := m.live + {m.next}, next := m.next + 1,
                 workers := m.workers + [Worker(OpenCall, Finished(Ok(m.next)))])
  {
    var m := Run(false, steps[..k]);
    RunStep(false, steps, k);
    RunStep(false, steps, k + 1);
    CallsOfOpen(m);
    RunStep(false, steps, k + 2);
    RunStep(false, steps, k + 3);
    OpenedStoreIsRegistered(Run(false, steps[..k + 2]), m.workers);
  }

  lemma FirstStoreIsOpened()
    ensures Run(false, OVERLAP[..4]) == Manager(Some(0), None, [Worker(OpenCall, Finished(Ok(0)))], [], {0}, {}, 1)
  {
    var start := OVERLAP[..0];
    assert start == [];
    assert Run(false, start) == START;
    assert OVERLAP[0] == CallOpen && forall i :: 0 < i < 4 ==> OVERLAP[i] == Advance(0, Succeeds);
    OpenCompletes(OVERLAP, 0);
  }

  lemma TwoClosesStart()
    ensures var m := Run(false, OVERLAP[..6]);
            && m.registered == Some(0) && m.live == {0} && m.unclosed == {} && m.next == 1
            && m.workers == [Worker(OpenCall, Finished(Ok(0))), Worker(CloseCall, CloseConfig(0)),
                             Worker(CloseCall, CloseConfig(0))]
  {
    FirstStoreIsOpened();
    RunStep(false, OVERLAP, 4);
    RunStep(false, OVERLAP, 5);
  }

  lemma FirstStoreIsClosed()
    ensures var m := Run(false, OVERLAP[..8]);
            && m.registered == None && m.live == {} && m.unclosed == {} && m.next == 1
            && m.workers == [Worker(OpenCall, Finished(Ok(0))), Worker(CloseCall, Finished(Ok(0))),
                             Worker(CloseCall, CloseConfig(0))]
  {
    TwoClosesStart();
    RunStep(false, OVERLAP, 6);
    var m6, m7 := Run(false, OVERLAP[..6]), Run(false, OVERLAP[..7]);
    assert m7 == m6.(workers := m6.workers[1 := Worker(CloseCall, CloseNative(0))]);
    RunStep(false, OVERLAP, 7);
  }

  lemma SecondStoreIsOpened()
    ensures var m := Run(false, OVERLAP[..12]);
            && m.registered == Some(1) && m.live == {1} && m.unclosed == {}
            && m.workers == [Worker(OpenCall, Finished(Ok(0))), Worker(CloseCall, Finished(Ok(0))),
                             Worker(CloseCall, CloseConfig(0)), Worker(OpenCall, Finished(Ok(1)))]
  {
    FirstStoreIsClosed();
    OpenCompletes(OVERLAP, 8);
  }

  lemma OverlappingClosesLeak()
    ensures !NoLeak(Run(false, OVERLAP))
  {
    SecondStoreIsOpened();
    RunStep(false, OVERLAP, 12); RunStep(false, OVERLAP, 13);
    assert OVERLAP[..14] == OVERLAP;
    var m := Run(false, OVERLAP);
    assert m.registered == None && 1 in m.live;
  }

  /** Keeping closes from overlapping is enough to keep every run from leaking, and without it some run leaks. */
  lemma NoLeakExactlyWhenClosesAreSerial(serialCloses: bool)
    ensures serialCloses <==> forall steps :: NoLeak(Run(serialCloses, steps))
    ensures forall steps :: var m := Run(true, steps);
            Quiet(m) ==> m.live == (if m.registered.Some? then {m.registered.value} else {}) + m.unclosed
  {
    forall steps
      ensures var m := Run(true, steps);
              && NoLeak(m)
              && (Quiet(m) ==> m.live == (if m.registered.Some? then {m.registered.value} else {}) + m.unclosed)
    {
      SerialRunKeepsLeakInv(steps);
      LeaksExactlyWhenACloseUnregistersAnother(true, steps);
    }
    if !serialCloses {
      OverlappingClosesLeak();
    }
  }

  // ---- One store for everybody, until somebody closes it ----

  function ReplyOf(w: Worker): Option<Reply> {
    if w.phase.Settled? || w.phase.Caught? || w.phase.Finished? then Some(w.phase.r) else None
  }

  /** What a worker says about the registered store. */
  predicate AgreesWith(w: Worker, registered: Option<Handle>) {
    && !w.kind.CloseCall? && !w.phase.CloseConfig? && !w.phase.CloseNative? && !w.phase.VersionJoin?
    && (w.phase.VersionSession? ==> registered == Some(w.phase.h))
    && (w.phase.ClosingLoser? ==> registered.Some?)
    && (!w.kind.SharedInit? ==> !w.phase.Settled? && !w.phase.Caught?)
    && var r := ReplyOf(w);
       && (r.Some? && r.value.Ok? ==> registered == Some(r.value.value))
       && (r == Some(Err(AlreadyRegistered)) ==> registered.Some?)
       && (w.kind.SharedInit? && !w.phase.Settled? ==> r != Some(Err(AlreadyRegistered)))
       && (w.kind.SharedInit? ==> r != Some(Err(AlreadyOpened)))
  }

  /** What a call that needs a store waits for or got, if it was made after the first `workers` workers. */
  predicate SessionAgrees(s: Session, m: Manager, workers: nat) {
    match s
    case Waiting(w) => workers <= w < |m.workers| && m.workers[w].kind.SharedInit?
    case Got(r) =>
      && (r.Ok? ==> m.registered == Some(r.value))
      && r != Err(AlreadyRegistered) && r != Err(AlreadyOpened)
  }

  /** Of the calls that were made before, the first `workers` workers and `sessions` sessions, nothing is left to do. */
  ghost predicate Past(m: Manager, workers: nat, sessions: nat) {
    && workers <= |m.workers| && sessions <= |m.sessions|
    && (forall i :: 0 <= i < workers ==> m.workers[i].phase.Finished?)
    && (forall i :: 0 <= i < sessions ==> m.sessions[i].Got?)
  }

  /** All calls made since agree on the registered store. */
  ghost predicate OneStore(m: Manager, workers: nat, sessions: nat) {
    && Past(m, workers, sessions)
    && (forall i :: workers <= i < |m.workers| ==> AgreesWith(m.workers[i], m.registered))
    && (forall i :: sessions <= i < |m.sessions| ==> SessionAgrees(m.sessions[i], m, workers))
    && SharedIsRunning(m)
    && (m.shared.Some? ==> workers <= m.shared.value)
  }

  /** Only a shared initialisation settles, and it closes nothing. */
  predicate FitsKind(w: Worker) {
    if w.kind.SharedInit? then !w.phase.CloseConfig? && !w.phase.CloseNative?
    else !w.phase.Settled? && !w.phase.Caught?
  }

  /** The shared initialisation is the one that is not finished. */
  ghost predicate SharedIsRunning(m: Manager) {
    && (m.shared.Some? ==> m.shared.value < |m.workers| && m.workers[m.shared.value].kind.SharedInit?)
    && (forall i :: 0 <= i < |m.workers| && m.workers[i].kind.SharedInit? ==>
          (m.workers[i].phase.Finished? <==> m.shared != Some(i)))
    && (forall i :: 0 <= i < |m.workers| ==> FitsKind(m.workers[i]))
  }

  // A shared initialisation is finished by being caught.
  predicate KeepsKind(was: Worker, now: Worker) {
    && now.kind == was.kind && FitsKind(now)
    && (was.kind.SharedInit? ==> (now.phase.Finished? <==> was.phase.Caught? || was.phase.Finished?))
  }

  lemma AdvanceKeepsKind(m: Manager, w: nat, o: Outcome)
    requires w < |m.workers| && FitsKind(m.workers[w])
    ensures w < |AdvanceWorker(m, w, o).workers|
    ensures KeepsKind(m.workers[w], AdvanceWorker(m, w, o).workers[w])
  {
  }

  // What it does to the shared initialisation: it ends it, or starts one if there is none.
  ghost predicate Shares(m: Manager, m': Manager, w: nat)
    requires w < |m.workers|
  {
    if m.workers[w].phase.Caught? then m'.shared == None && |m'.workers| == |m.workers|
    else if |m'.workers| == |m.workers| then m'.shared == m.shared
    else
      && m.shared == None && m'.shared == Some(|m.workers|)
      && |m'.workers| == |m.workers| + 1 && m'.workers[|m.workers|] == Worker(SharedInit, OpenConfig)
  }

  lemma AdvanceShares(m: Manager, w: nat, o: Outcome)
    requires w < |m.workers|
    ensures Shares(m, AdvanceWorker(m, w, o), w)
  {
  }

  lemma AdvanceKeepsSharedRunning(m: Manager, w: nat, o: Outcome)
    requires SharedIsRunning(m) && w < |m.workers|
    ensures SharedIsRunning(AdvanceWorker(m, w, o))
  {
    AdvanceKeepsKind(m, w, o);
    AdvanceShares(m, w, o);
    AdvanceKeepsOtherWorkers(m, w, o);
    SharingKeepsRunning(m, AdvanceWorker(m, w, o), w);
  }

  lemma SharingKeepsRunning(m: Manager, m': Manager, w: nat)
    requires SharedIsRunning(m) && w < |m.workers| <= |m'.workers| && Shares(m, m', w)
    requires forall i :: 0 <= i < |m.workers| && i != w ==> m'.workers[i] == m.workers[i]
    requires KeepsKind(m.workers[w], m'.workers[w])
    ensures SharedIsRunning(m')
  {
  }

  lemma {:induction false} SharedIsAlwaysRunning(serialCloses: bool, steps: seq<Step>)
    ensures SharedIsRunning(Run(serialCloses, steps))
  {
    if steps != [] {
      var m, step := Run(serialCloses, steps[..|steps| - 1]), steps[|steps| - 1];
      SharedIsAlwaysRunning(serialCloses, steps[..|steps| - 1]);
      if step.Advance? && step.worker < |m.workers| {
        AdvanceKeepsSharedRunning(m, step.worker, step.outcome);
      } else {
        CallKeepsSharedRunning(serialCloses, m, step);
      }
    }
  }

  lemma CallKeepsSharedRunning(serialCloses: bool, m: Manager, step: Step)
    requires SharedIsRunning(m) && (step.Advance? ==> step.worker >= |m.workers|)
    ensures SharedIsRunning(Next(serialCloses, m, step))
  {
    var m' := Next(serialCloses, m, step);
    assert |m.workers| <= |m'.workers| <= |m.workers| + 1;
    assert forall i :: 0 <= i < |m.workers| ==> m'.workers[i] == m.workers[i];
  }

  // What one worker's step does to the registered store, to the shared initialisation and to itself.
  ghost predicate Progress(m: Manager, m': Manager, w: nat)
    requires w < |m.workers|
  {
    && |m'.workers| == |m.workers| && m'.sessions == m.sessions
    && m'.workers[w].kind == m.workers[w].kind
    && (forall i :: 0 <= i < |m.workers| && i != w ==> m'.workers[i] == m.workers[i])
    && (m.registered.Some? ==> m'.registered == m.registered)
    && AgreesWith(m'.workers[w], m'.registered)
    && m'.shared == (if m.workers[w].phase.Caught? then None else m.shared)
    && (m.workers[w].kind.SharedInit? ==>
          (m'.workers[w].phase.Finished? <==> m.workers[w].phase.Caught? || m.workers[w].phase.Finished?))
  }

  lemma AdvanceAgrees(m: Manager, w: nat, o: Outcome)
    requires w < |m.workers| && AgreesWith(m.workers[w], m.registered)
    ensures AgreesWith(AdvanceWorker(m, w, o).workers[w], AdvanceWorker(m, w, o).registered)
  {
  }

  lemma AdvanceIsProgress(m: Manager, w: nat, o: Outcome)
    requires w < |m.workers| && AgreesWith(m.workers[w], m.registered)
    ensures Progress(m, AdvanceWorker(m, w, o), w)
  {
    AdvanceAgrees(m, w, o);
  }

  lemma RegistrationLasts(w: Worker, before: Option<Handle>, after: Option<Handle>)
    requires AgreesWith(w, before) && (before.Some? ==> after == before)
    ensures AgreesWith(w, after)
  {
  }

  lemma AdvanceKeepsOneStore(m: Manager, w: nat, o: Outcome, workers: nat, sessions: nat)
    requires OneStore(m, workers, sessions) && w < |m.workers|
    ensures OneStore(AdvanceWorker(m, w, o), workers, sessions)
    ensures m.registered.Some? ==> AdvanceWorker(m, w, o).registered == m.registered
  {
    if w >= workers {
      AdvanceIsProgress(m, w, o);
      AdvanceKeepsSharedRunning(m, w, o);
      ProgressKeepsOneStore(m, AdvanceWorker(m, w, o), w, workers, sessions);
    }
  }

  lemma ProgressKeepsOneStore(m: Manager, m': Manager, w: nat, workers: nat, sessions: nat)
    requires OneStore(m, workers, sessions) && workers <= w < |m.workers| && Progress(m, m', w) && SharedIsRunning(m')
    ensures OneStore(m', workers, sessions)
  {
    forall i | workers <= i < |m.workers| ensures AgreesWith(m'.workers[i], m'.registered) {
      if i != w {
        assert AgreesWith(m.workers[i], m.registered);
        RegistrationLasts(m.workers[i], m.registered, m'.registered);
      }
    }
    forall i | sessions <= i < |m.sessions| ensures SessionAgrees(m'.sessions[i], m', workers) {
      assert SessionAgrees(m.sessions[i], m, workers);
    }
  }

  lemma DeliveryKeepsOneStore(m: Manager, s: nat, workers: nat, sessions: nat)
    requires OneStore(m, workers, sessions)
    ensures OneStore(Next(true, m, Deliver(s)), workers, sessions)
  {
    if sessions <= s < |m.sessions| { assert SessionAgrees(m.sessions[s], m, workers); }
  }

  lemma CallKeepsOneStore(m: Manager, step: Step, workers: nat, sessions: nat)
    requires OneStore(m, workers, sessions) && (step.CallOpen? || step.CallProvision? || step.CallInitialized?)
    ensures OneStore(Next(true, m, step), workers, sessions)
  {
    var m' := Next(true, m, step);
    CallKeepsSharedRunning(true, m, step);
    assert m'.registered == m.registered && Past(m', workers, sessions);
    forall i | sessions <= i < |m.sessions| ensures SessionAgrees(m'.sessions[i], m', workers) {
      assert SessionAgrees(m.sessions[i], m, workers);
    }
  }

  lemma StepKeepsOneStore(m: Manager, step: Step, workers: nat, sessions: nat)
    requires OneStore(m, workers, sessions) && !step.CallClose?
    ensures OneStore(Next(true, m, step), workers, sessions)
    ensures m.registered.Some? ==> Next(true, m, step).registered == m.registered
  {
    if step.Advance? && step.worker < |m.workers| {
      AdvanceKeepsOneStore(m, step.worker, step.outcome, workers, sessions);
    } else if step.Deliver? {
      DeliveryKeepsOneStore(m, step.session, workers, sessions);
    } else if !step.Advance? {
      CallKeepsOneStore(m, step, workers, sessions);
    }
  }

  /** No call is in flight and every caller got its answer. */
  ghost predicate AllSettled(m: Manager) {
    Quiet(m) && forall i :: 0 <= i < |m.sessions| ==> m.sessions[i].Got?
  }

  /** Nobody closes the store from step n on. */
  ghost predicate NotClosedSince(steps: seq<Step>, n: nat) {
    forall i :: n <= i < |steps| ==> !steps[i].CallClose?
  }

  lemma {:induction false} UnclosedRunKeepsOneStore(steps: seq<Step>, n: nat)
    requires n <= |steps| && NotClosedSince(steps, n) && AllSettled(Run(true, steps[..n]))
    ensures var m := Run(true, steps[..n]); OneStore(Run(true, steps), |m.workers|, |m.sessions|)
  {
    var m := Run(true, steps[..n]);
    if n == |steps| {
      assert steps[..n] == steps;
      SharedIsAlwaysRunning(true, steps);
    } else {
      var before := steps[..|steps| - 1];
      assert before[..n] == steps[..n];
      UnclosedRunKeepsOneStore(before, n);
      StepKeepsOneStore(Run(true, before), steps[|steps| - 1], |m.workers|, |m.sessions|);
    }
  }

  /** From any moment at which all calls had settled, for example after a close that overlapped no other call, and until
      the store is closed again: whatever a call made since returned successfully is the one registered store, which is
      open, and no caller that shares an initialisation is told that another store was registered first. */
  lemma EveryCallGetsTheRegisteredStore(steps: seq<Step>, n: nat)
    requires n <= |steps| && NotClosedSince(steps, n) && AllSettled(Run(true, steps[..n]))
    ensures var before, m := Run(true, steps[..n]), Run(true, steps);
            && (forall i :: |before.sessions| <= i < |m.sessions| && m.sessions[i].Got? && m.sessions[i].r.Ok? ==>
                  m.registered == Some(m.sessions[i].r.value) && m.sessions[i].r.value in m.live)
            && (forall i :: |before.sessions| <= i < |m.sessions| ==> m.sessions[i] != Got(Err(AlreadyRegistered)))
            && (forall i, h: Handle :: |before.workers| <= i < |m.workers| && m.workers[i].phase == Finished(Ok(h)) ==>
                  m.registered == Some(h))
  {
    UnclosedRunKeepsOneStore(steps, n);
    SerialRunKeepsLeakInv(steps);
    var before, m := Run(true, steps[..n]), Run(true, steps);
    forall i | |before.sessions| <= i < |m.sessions|
      ensures m.sessions[i] != Got(Err(AlreadyRegistered))
      ensures m.sessions[i].Got? && m.sessions[i].r.Ok? ==>
                m.registered == Some(m.sessions[i].r.value) && m.sessions[i].r.value in m.live
    {
      assert SessionAgrees(m.sessions[i], m, |before.workers|);
    }
    forall i, h: Handle | |before.workers| <= i < |m.workers| && m.workers[i].phase == Finished(Ok(h))
      ensures m.registered == Some(h)
    {
      assert AgreesWith(m.workers[i], m.registered);
    }
  }

  // ---- Calls that meet no obstacle succeed ----

  /** The steps of one worker, with how each awaited operation ends. */
  function Advances(w: nat, outcomes: seq<Outcome>): seq<Step> {
    seq(|outcomes|, i requires 0 <= i < |outcomes| => Advance(w, outcomes[i]))
  }

  function RunFrom(serialCloses: bool, m: Manager, steps: seq<Step>): Manager
    decreases |steps|
  {
    if steps == [] then m else RunFrom(serialCloses, Next(serialCloses, m, steps[0]), steps[1..])
  }

  lemma {:induction false} RunInTwoParts(serialCloses: bool, m: Manager, first: seq<Step>, rest: seq<Step>)
    ensures RunFrom(serialCloses, m, first + rest) == RunFrom(serialCloses, RunFrom(serialCloses, m, first), rest)
    decreases |first|
  {
    if first == [] {
      assert first + rest == rest;
    } else {
      assert (first + rest)[1..] == first[1..] + rest;
      RunInTwoParts(serialCloses, Next(serialCloses, m, first[0]), first[1..], rest);
    }
  }

  lemma OneStep(serialCloses: bool, m: Manager, step: Step)
    ensures RunFrom(serialCloses, m, [step]) == Next(serialCloses, m, step)
  {
    var after := Next(serialCloses, m, step);
    assert [step][1..] == [] && RunFrom(serialCloses, after, []) == after;
  }

  lemma AdvancesInTwoParts(serialCloses: bool, m: Manager, w: nat, first: seq<Outcome>, rest: seq<Outcome>)
    ensures RunFrom(serialCloses, m, Advances(w, first + rest))
         == RunFrom(serialCloses, RunFrom(serialCloses, m, Advances(w, first)), Advances(w, rest))
  {
    AdvancesAppend(w, first, rest);
    RunInTwoParts(serialCloses, m, Advances(w, first), Advances(w, rest));
  }

  lemma AdvancesAppend(w: nat, first: seq<Outcome>, rest: seq<Outcome>)
    ensures Advances(w, first + rest) == Advances(w, first) + Advances(w, rest)
  {
  }

  lemma TwoAdvances(serialCloses: bool, m: Manager, w: nat, a: Outcome, b: Outcome)
    ensures RunFrom(serialCloses, m, Advances(w, [a, b]))
         == Next(serialCloses, Next(serialCloses, m, Advance(w, a)), Advance(w, b))
  {
    AdvancesInTwoParts(serialCloses, m, w, [a], [b]);
    assert [a] + [b] == [a, b] && Advances(w, [a]) == [Advance(w, a)] && Advances(w, [b]) == [Advance(w, b)];
    OneStep(serialCloses, m, Advance(w, a));
    OneStep(serialCloses, Next(serialCloses, m, Advance(w, a)), Advance(w, b));
  }

  // The manager with its last worker in another phase.
  function WithLast(m: Manager, workers: seq<Worker>, kind: Kind, phase: Phase): Manager {
    m.(workers := workers + [Worker(kind, phase)])
  }

  lemma SetLast(m: Manager, workers: seq<Worker>, kind: Kind, before: Phase, phase: Phase)
    requires m.workers == workers + [Worker(kind, before)]
    ensures Set(m, |workers|, phase) == WithLast(m, workers, kind, phase)
  {
    assert m.workers[|workers| := Worker(kind, phase)] == workers + [Worker(kind, phase)];
  }

  lemma FoundIsHeld(sc: bool, m: Manager, workers: seq<Worker>, kind: Kind)
    requires m.workers == workers + [Worker(kind, OpenConfig)]
    ensures RunFrom(sc, m, Advances(|workers|, [Succeeds, Succeeds]))
         == WithLast(m, workers, kind, Register(m.next, false)).(live := m.live + {m.next}, next := m.next + 1)
  {
    TwoAdvances(sc, m, |workers|, Succeeds, Succeeds);
    var m1 := WithLast(m, workers, kind, OpenNative);
    SetLast(m, workers, kind, OpenConfig, OpenNative);
    assert Next(sc, m, Advance(|workers|, Succeeds)) == m1;
    SetLast(m1, workers, kind, OpenNative, Register(m.next, false));
  }

  lemma MissingIsProvisioned(sc: bool, m: Manager, workers: seq<Worker>)
    requires m.workers == workers + [Worker(SharedInit, OpenConfig)]
    ensures RunFrom(sc, m, Advances(|workers|, [Succeeds, Missing(true)]))
         == WithLast(m, workers, SharedInit, ProvisionConfig)
  {
    TwoAdvances(sc, m, |workers|, Succeeds, Missing(true));
    var m1 := WithLast(m, workers, SharedInit, OpenNative);
    SetLast(m, workers, SharedInit, OpenConfig, OpenNative);
    assert Next(sc, m, Advance(|workers|, Succeeds)) == m1;
    SetLast(m1, workers, SharedInit, OpenNative, ProvisionConfig);
  }

  lemma ProvisionedIsHeld(sc: bool, m: Manager, workers: seq<Worker>, kind: Kind)
    requires m.workers == workers + [Worker(kind, ProvisionConfig)] && m.registered.None?
    ensures RunFrom(sc, m, Advances(|workers|, [Succeeds, Succeeds]))
         == WithLast(m, workers, kind, Register(m.next, true)).(live := m.live + {m.next}, next := m.next + 1)
  {
    TwoAdvances(sc, m, |workers|, Succeeds, Succeeds);
    var m1 := WithLast(m, workers, kind, ProvisionNative);
    SetLast(m, workers, kind, ProvisionConfig, ProvisionNative);
    assert Next(sc, m, Advance(|workers|, Succeeds)) == m1;
    SetLast(m1, workers, kind, ProvisionNative, Register(m.next, true));
  }

  lemma HeldIsRegistered(sc: bool, m: Manager, workers: seq<Worker>, kind: Kind, h: Handle, o: Outcome)
    requires m.workers == workers + [Worker(kind, Register(h, false))] && m.registered.None?
    ensures Next(sc, m, Advance(|workers|, o))
         == WithLast(m, workers, kind, Settle(kind, Ok(h))).(registered := Some(h))
  {
    SetLast(m, workers, kind, Register(h, false), Settle(kind, Ok(h)));
  }

  lemma NewIsRegistered(sc: bool, m: Manager, workers: seq<Worker>, kind: Kind, h: Handle)
    requires m.workers == workers + [Worker(kind, Register(h, true))] && m.registered.None?
    ensures RunFrom(sc, m, Advances(|workers|, [Succeeds, Succeeds]))
         == WithLast(m, workers, kind, Settle(kind, Ok(h))).(registered := Some(h))
  {
    TwoAdvances(sc, m, |workers|, Succeeds, Succeeds);
    var m1 := WithLast(m, workers, kind, VersionSession(h)).(registered := Some(h));
    SetLast(m, workers, kind, Register(h, true), VersionSession(h));
    assert Next(sc, m, Advance(|workers|, Succeeds)) == m1;
    SetLast(m1, workers, kind, VersionSession(h), Settle(kind, Ok(h)));
  }

  lemma SettledIsFinished(sc: bool, m: Manager, workers: seq<Worker>, h: Handle, a: Outcome, b: Outcome)
    requires m.workers == workers + [Worker(SharedInit, Settled(Ok(h)))]
    ensures RunFrom(sc, m, Advances(|workers|, [a, b]))
         == WithLast(m, workers, SharedInit, Finished(Ok(h))).(shared := None)
  {
    TwoAdvances(sc, m, |workers|, a, b);
    var m1 := WithLast(m, workers, SharedInit, Caught(Ok(h)));
    SetLast(m, workers, SharedInit, Settled(Ok(h)), Caught(Ok(h)));
    assert Next(sc, m, Advance(|workers|, a)) == m1;
    SetLast(m1, workers, SharedInit, Caught(Ok(h)), Finished(Ok(h)));
  }

  const OPENED: seq<Outcome> := [Succeeds, Succeeds] + [Succeeds]
  const PROVISIONED: seq<Outcome> := [Succeeds, Succeeds] + [Succeeds, Succeeds]

  lemma OpenSettles(sc: bool, m: Manager, workers: seq<Worker>, kind: Kind)
    requires m.workers == workers + [Worker(kind, OpenConfig)] && m.registered.None?
    ensures RunFrom(sc, m, Advances(|workers|, OPENED))
         == WithLast(m, workers, kind, Settle(kind, Ok(m.next)))
              .(registered := Some(m.next), live := m.live + {m.next}, next := m.next + 1)
  {
    var w := |workers|;
    AdvancesInTwoParts(sc, m, w, [Succeeds, Succeeds], [Succeeds]);
    FoundIsHeld(sc, m, workers, kind);
    var m1 := RunFrom(sc, m, Advances(w, [Succeeds, Succeeds]));
    assert Advances(w, [Succeeds]) == [Advance(w, Succeeds)];
    OneStep(sc, m1, Advance(w, Succeeds));
    HeldIsRegistered(sc, m1, workers, kind, m.next, Succeeds);
  }

  lemma ProvisionSettles(sc: bool, m: Manager, workers: seq<Worker>, kind: Kind)
    requires m.workers == workers + [Worker(kind, ProvisionConfig)] && m.registered.None?
    ensures RunFrom(sc, m, Advances(|workers|, PROVISIONED))
         == WithLast(m, workers, kind, Settle(kind, Ok(m.next)))
              .(registered := Some(m.next), live := m.live + {m.next}, next := m.next + 1)
  {
    var w := |workers|;
    AdvancesInTwoParts(sc, m, w, [Succeeds, Succeeds], [Succeeds, Succeeds]);
    ProvisionedIsHeld(sc, m, workers, kind);
    NewIsRegistered(sc, RunFrom(sc, m, Advances(w, [Succeeds, Succeeds])), workers, kind, m.next);
  }

  /** The manager after a call that opened or created a store. */
  function WithStore(m: Manager, kind: Kind): Manager {
    WithLast(m, m.workers, kind, Finished(Ok(m.next)))
      .(registered := Some(m.next), live := m.live + {m.next}, next := m.next + 1)
  }

  /** With nothing registered, an open that finds the store returns it, registered and open. */
  lemma OpenReturnsTheStore(sc: bool, m: Manager)
    requires m.registered.None?
    ensures RunFrom(sc, m, [CallOpen] + Advances(|m.workers|, OPENED)) == WithStore(m, OpenCall)
  {
    RunInTwoParts(sc, m, [CallOpen], Advances(|m.workers|, OPENED));
    OneStep(sc, m, CallOpen);
    OpenSettles(sc, Next(sc, m, CallOpen), m.workers, OpenCall);
  }

  /** With nothing registered, provisioning returns a new store, registered and open. */
  lemma ProvisionReturnsTheStore(sc: bool, m: Manager)
    requires m.registered.None?
    ensures RunFrom(sc, m, [CallProvision] + Advances(|m.workers|, PROVISIONED)) == WithStore(m, ProvisionCall)
  {
    RunInTwoParts(sc, m, [CallProvision], Advances(|m.workers|, PROVISIONED));
    OneStep(sc, m, CallProvision);
    ProvisionSettles(sc, Next(sc, m, CallProvision), m.workers, ProvisionCall);
  }

  /** A close that meets no obstacle closes the registered store and unregisters it. */
  lemma CloseClosesTheStore(sc: bool, m: Manager, h: Handle)
    requires m.registered == Some(h) && !(sc && Closing(m))
    ensures RunFrom(sc, m, [CallClose] + Advances(|m.workers|, [Succeeds, Succeeds]))
         == WithLast(m, m.workers, CloseCall, Finished(Ok(h))).(registered := None, live := m.live - {h})
  {
    var w, m0 := |m.workers|, WithLast(m, m.workers, CloseCall, CloseConfig(h));
    RunInTwoParts(sc, m, [CallClose], Advances(w, [Succeeds, Succeeds]));
    OneStep(sc, m, CallClose);
    TwoAdvances(sc, m0, w, Succeeds, Succeeds);
    var m1 := WithLast(m, m.workers, CloseCall, CloseNative(h));
    SetLast(m0, m.workers, CloseCall, CloseConfig(h), CloseNative(h));
    assert Next(sc, m0, Advance(w, Succeeds)) == m1;
    SetLast(m1, m.workers, CloseCall, CloseNative(h), Finished(Ok(h)));
  }

  /** What a caller that needs an initialised store makes of nothing registered and nothing shared. */
  lemma InitializationStarts(sc: bool, m: Manager)
    requires m.registered.None? && m.shared.None?
    ensures Next(sc, m, CallInitialized)
         == WithLast(m, m.workers, SharedInit, OpenConfig)
              .(shared := Some(|m.workers|), sessions := m.sessions + [Waiting(|m.workers|)])
  {
  }

  lemma InitializationIsDelivered(sc: bool, m: Manager, workers: seq<Worker>, sessions: seq<Session>, r: Reply)
    requires m.workers == workers + [Worker(SharedInit, Finished(r))] && m.sessions == sessions + [Waiting(|workers|)]
    ensures Next(sc, m, Deliver(|sessions|)) == m.(sessions := sessions + [Got(r)])
  {
    assert m.sessions[|sessions| := Got(r)] == sessions + [Got(r)];
  }

  /** A shared initialisation that has settled: what it settled with is delivered to its caller. */
  lemma SettledIsDelivered(sc: bool, m: Manager, workers: seq<Worker>, sessions: seq<Session>, h: Handle)
    requires m.workers == workers + [Worker(SharedInit, Settled(Ok(h)))] && m.sessions == sessions + [Waiting(|workers|)]
    ensures RunFrom(sc, m, Advances(|workers|, [Succeeds, Succeeds]) + [Deliver(|sessions|)])
         == WithLast(m, workers, SharedInit, Finished(Ok(h))).(shared := None, sessions := sessions + [Got(Ok(h))])
  {
    RunInTwoParts(sc, m, Advances(|workers|, [Succeeds, Succeeds]), [Deliver(|sessions|)]);
    SettledIsFinished(sc, m, workers, h, Succeeds, Succeeds);
    var m1 := RunFrom(sc, m, Advances(|workers|, [Succeeds, Succeeds]));
    OneStep(sc, m1, Deliver(|sessions|));
    InitializationIsDelivered(sc, m1, workers, sessions, Ok(h));
  }

  function Initialized(m: Manager): Manager {
    WithStore(m, SharedInit).(sessions := m.sessions + [Got(Ok(m.next))])
  }

  lemma QuietSharesNothing(m: Manager)
    requires Quiet(m) && SharedIsRunning(m)
    ensures m.shared.None?
  {
  }

  /** The first use on demand, while no other call runs, opens the store that is there, and its caller gets it. */
  lemma InitializationOpensTheStore(sc: bool, m: Manager)
    requires Quiet(m) && SharedIsRunning(m) && m.registered.None?
    ensures var w := |m.workers|;
      RunFrom(sc, m, [CallInitialized] + Advances(w, OPENED)
                     + (Advances(w, [Succeeds, Succeeds]) + [Deliver(|m.sessions|)])) == Initialized(m)
  {
    var w, delivery := |m.workers|, Advances(|m.workers|, [Succeeds, Succeeds]) + [Deliver(|m.sessions|)];
    QuietSharesNothing(m);
    RunInTwoParts(sc, m, [CallInitialized] + Advances(w, OPENED), delivery);
    RunInTwoParts(sc, m, [CallInitialized], Advances(w, OPENED));
    OneStep(sc, m, CallInitialized);
    InitializationStarts(sc, m);
    var m1 := Next(sc, m, CallInitialized);
    OpenSettles(sc, m1, m.workers, SharedInit);
    SettledIsDelivered(sc, RunFrom(sc, m1, Advances(w, OPENED)), m.workers, m.sessions, m.next);
  }

  /** If there is no store yet it provisions one, and its caller gets that, provided the agent context is initialised. */
  lemma InitializationProvisionsTheStore(sc: bool, m: Manager)
    requires Quiet(m) && SharedIsRunning(m) && m.registered.None?
    ensures var w := |m.workers|;
      RunFrom(sc, m, [CallInitialized] + Advances(w, [Succeeds, Missing(true)] + PROVISIONED)
                     + (Advances(w, [Succeeds, Succeeds]) + [Deliver(|m.sessions|)])) == Initialized(m)
  {
    var w, delivery := |m.workers|, Advances(|m.workers|, [Succeeds, Succeeds]) + [Deliver(|m.sessions|)];
    QuietSharesNothing(m);
    var first := [Succeeds, Missing(true)];
    RunInTwoParts(sc, m, [CallInitialized] + Advances(w, first + PROVISIONED), delivery);
    RunInTwoParts(sc, m, [CallInitialized], Advances(w, first + PROVISIONED));
    OneStep(sc, m, CallInitialized);
    InitializationStarts(sc, m);
    var m1 := Next(sc, m, CallInitialized);
    AdvancesInTwoParts(sc, m1, w, first, PROVISIONED);
    MissingIsProvisioned(sc, m1, m.workers);
    var m2 := RunFrom(sc, m1, Advances(w, first));
    ProvisionSettles(sc, m2, m.workers, SharedInit);
    SettledIsDelivered(sc, RunFrom(sc, m2, Advances(w, PROVISIONED)), m.workers, m.sessions, m.next);
  }

  /** An open while a store is registered, and a close while none is, end at once with their errors and change nothing. */
  lemma CallsRefusedAtOnce(sc: bool, m: Manager)
    ensures m.registered.Some? ==>
      Next(sc, m, CallOpen) == WithLast(m, m.workers, OpenCall, Finished(Err(AlreadyOpened)))
    ensures m.registered.None? && !(sc && Closing(m)) ==>
      Next(sc, m, CallClose) == WithLast(m, m.workers, CloseCall, Finished(Err(NoOpenStore)))
  {
  }

  /** A caller that comes later, while an initialisation runs or when a store is registered, joins it or gets it. */
  lemma LaterCallerJoins(sc: bool, m: Manager)
    requires m.registered.Some? || m.shared.Some?
    ensures Next(sc, m, CallInitialized).sessions
         == m.sessions + [if m.registered.Some? then Got(Ok(m.registered.value)) else Waiting(m.shared.value)]
    ensures Next(sc, m, CallInitialized).workers == m.workers && Next(sc, m, CallInitialized).shared == m.shared
  {
  }

  /** A worker that opened a store after another was registered closes its own, or leaves it open if that fails, and says so
      either way; an initialisation that is shared answers with the registered one instead. */
  lemma LoserClosesItsOwn(
    sc: bool, m: Manager, workers: seq<Worker>, kind: Kind, h: Handle, provisioned: bool, o: Outcome, closed: Outcome)
    requires m.workers == workers + [Worker(kind, Register(h, provisioned))] && m.registered.Some?
    ensures var after := WithLast(m, workers, kind, Settle(kind, Err(AlreadyRegistered)));
      RunFrom(sc, m, Advances(|workers|, [o, closed]))
      == if closed == Succeeds then after.(live := m.live - {h}) else after.(unclosed := m.unclosed + {h})
  {
    TwoAdvances(sc, m, |workers|, o, closed);
    var m1 := WithLast(m, workers, kind, ClosingLoser(h));
    SetLast(m, workers, kind, Register(h, provisioned), ClosingLoser(h));
    assert Next(sc, m, Advance(|workers|, o)) == m1;
    SetLast(m1, workers, kind, ClosingLoser(h), Settle(kind, Err(AlreadyRegistered)));
  }

  lemma SharedLoserAnswersWithTheRegistered(sc: bool, m: Manager, workers: seq<Worker>, e: Error, a: Outcome, b: Outcome)
    requires m.workers == workers + [Worker(SharedInit, Settled(Err(e)))] && m.registered.Some?
    ensures RunFrom(sc, m, Advances(|workers|, [a, b])).workers
         == workers + [Worker(SharedInit, Finished(
              if e == AlreadyRegistered || e == Duplicate then Ok(m.registered.value) else Err(e)))]
  {
    var r := if e == AlreadyRegistered || e == Duplicate then Ok(m.registered.value) else Err(e);
    TwoAdvances(sc, m, |workers|, a, b);
    var m1 := WithLast(m, workers, SharedInit, Caught(r));
    SetLast(m, workers, SharedInit, Settled(Err(e)), Caught(r));
    assert Next(sc, m, Advance(|workers|, a)) == m1;
    SetLast(m1, workers, SharedInit, Caught(r), Finished(r));
  }

  // ---- Every error has its cause ----

  /** The step at which a worker's error arises. */
  predicate IsCause(m: Manager, step: Step, i: nat, e: Error) {
    match e
    case AlreadyOpened => step.CallOpen? && i == |m.workers| && m.registered.Some?
    case NoOpenStore => step.CallClose? && i == |m.workers| && m.registered.None?
    case _ =>
      step.Advance? && step.worker == i && i < |m.workers| && AdvanceCauses(m, i, step.outcome, e)
  }

  /** Whether a worker is about to write the storage version: its store, or the one it waited for, is initialised. */
  predicate WritesVersion(m: Manager, w: nat)
    requires w < |m.workers|
  {
    match m.workers[w].phase
    case VersionSession(_) => m.registered.Some?
    case VersionJoin(_, joined) =>
      joined < |m.workers| && m.workers[joined].phase.Finished? && m.workers[joined].phase.r.Ok?
    case _ => false
  }

  /** The error of a worker whose awaited operation ends like this: nothing to open and no right to provision, another
      store registered first, a store that exists already, or another failure. */
  predicate AdvanceCauses(m: Manager, w: nat, o: Outcome, e: Error)
    requires w < |m.workers|
  {
    var kind, phase := m.workers[w].kind, m.workers[w].phase;
    match e
    case NotFound => phase.OpenNative? && o.Missing? && (kind.SharedInit? ==> !o.initialized)
    case AlreadyRegistered => phase.ClosingLoser?
    case Duplicate =>
      || (phase.ProvisionConfig? && o.Succeeds? && m.registered.Some?)
      || ((phase.ProvisionNative? || WritesVersion(m, w)) && o.Exists?)
    case OtherError =>
      || ((phase.OpenConfig? || phase.ProvisionConfig? || phase.CloseConfig? || phase.CloseNative?) && !o.Succeeds?)
      || (phase.OpenNative? && (o.Exists? || o.Fails?))
      || ((phase.ProvisionNative? || WritesVersion(m, w)) && (o.Missing? || o.Fails?))
    case _ => false
  }

  /** The store that a worker answers with when its awaited operation ends like this. */
  predicate AdvanceAnswers(m: Manager, w: nat, o: Outcome, h: Handle)
    requires w < |m.workers|
  {
    var phase := m.workers[w].phase;
    || (phase == Register(h, false) && m.registered.None?)
    || (WritesVersion(m, w) && o.Succeeds? && phase.h == h)
    || (phase == CloseNative(h) && o.Succeeds?)
  }

  /** A step gives a worker its answer exactly when its awaited operation ends in one of these ways, or when the
      initialisation it waited for failed. */
  lemma AnsweredExactlyWhen(m: Manager, w: nat, o: Outcome)
    requires w < |m.workers| && ReplyOf(m.workers[w]).None?
    ensures var reply := ReplyOf(AdvanceWorker(m, w, o).workers[w]);
      && (forall h: Handle :: reply == Some(Ok(h)) <==> AdvanceAnswers(m, w, o, h))
      && (forall e :: reply == Some(Err(e)) <==> AdvanceCauses(m, w, o, e) || JoinedError(m, w) == Some(e))
  {
    if m.workers[w].phase.VersionSession? || m.workers[w].phase.VersionJoin? {
      VersionAnsweredExactlyWhen(m, w, o);
    } else {
      OthersAnsweredExactlyWhen(m, w, o);
    }
  }

  lemma VersionAnsweredExactlyWhen(m: Manager, w: nat, o: Outcome)
    requires w < |m.workers| && (m.workers[w].phase.VersionSession? || m.workers[w].phase.VersionJoin?)
    ensures var reply := ReplyOf(AdvanceWorker(m, w, o).workers[w]);
      && (forall h: Handle :: reply == Some(Ok(h)) <==> AdvanceAnswers(m, w, o, h))
      && (forall e :: reply == Some(Err(e)) <==> AdvanceCauses(m, w, o, e) || JoinedError(m, w) == Some(e))
  {
  }

  lemma OthersAnsweredExactlyWhen(m: Manager, w: nat, o: Outcome)
    requires w < |m.workers| && ReplyOf(m.workers[w]).None?
    requires !m.workers[w].phase.VersionSession? && !m.workers[w].phase.VersionJoin?
    ensures var reply := ReplyOf(AdvanceWorker(m, w, o).workers[w]);
      && (forall h: Handle :: reply == Some(Ok(h)) <==> AdvanceAnswers(m, w, o, h))
      && (forall e :: reply == Some(Err(e)) <==> AdvanceCauses(m, w, o, e))
  {
  }

  /** The error of the initialisation that a worker waited for. */
  function JoinedError(m: Manager, w: nat): Option<Error>
    requires w < |m.workers|
  {
    match m.workers[w].phase
    case VersionJoin(_, joined) =>
      if joined < |m.workers| && m.workers[joined].phase.Finished? && m.workers[joined].phase.r.Err?
      then Some(m.workers[joined].phase.r.error) else None
    case _ => None
  }

  ghost predicate HasCause(serialCloses: bool, steps: seq<Step>, i: nat, e: Error) {
    exists k :: 0 <= k < |steps| && IsCause(Run(serialCloses, steps[..k]), steps[k], i, e)
  }

  // The worker whose error this is: the one that has it, or the initialisation that it joined.
  ghost predicate Explained(serialCloses: bool, steps: seq<Step>, m: Manager, i: nat, e: Error)
    requires i < |m.workers|
  {
    HasCause(serialCloses, steps, i, e)
    || (!m.workers[i].kind.SharedInit?
        && exists j :: 0 <= j < |m.workers| && m.workers[j].kind.SharedInit? && HasCause(serialCloses, steps, j, e))
  }

  ghost predicate AllExplained(serialCloses: bool, steps: seq<Step>, m: Manager) {
    forall i :: 0 <= i < |m.workers| && ReplyOf(m.workers[i]).Some? && ReplyOf(m.workers[i]).value.Err? ==>
      Explained(serialCloses, steps, m, i, ReplyOf(m.workers[i]).value.error)
  }

  // A worker joins a shared initialisation, and a shared one could only join itself.
  ghost predicate JoinsShared(m: Manager) {
    forall i :: 0 <= i < |m.workers| && m.workers[i].phase.VersionJoin? ==>
      var j := m.workers[i].phase.joined;
      j < |m.workers| && m.workers[j].kind.SharedInit? && (m.workers[i].kind.SharedInit? ==> j == i)
  }

  // Only a shared initialisation that lost changes what it settled with, and not to an error.
  lemma AnsweredKeepsError(m: Manager, w: nat, o: Outcome, e: Error)
    requires w < |m.workers| && ReplyOf(m.workers[w]).Some?
    requires ReplyOf(AdvanceWorker(m, w, o).workers[w]) == Some(Err(e))
    ensures ReplyOf(m.workers[w]) == Some(Err(e))
  {
  }

  lemma AdvanceKeepsJoinsShared(m: Manager, w: nat, o: Outcome)
    requires w < |m.workers| && JoinsShared(m) && SharedIsRunning(m)
    ensures JoinsShared(AdvanceWorker(m, w, o))
  {
    var m' := AdvanceWorker(m, w, o);
    AdvanceKeepsOtherWorkers(m, w, o);
    AdvanceKeepsKind(m, w, o);
    AdvanceShares(m, w, o);
    assert forall i :: |m.workers| <= i < |m'.workers| ==> m'.workers[i] == Worker(SharedInit, OpenConfig);
    AdvanceJoinsShared(m, w, o);
  }

  lemma AdvanceJoinsShared(m: Manager, w: nat, o: Outcome)
    requires w < |m.workers| && JoinsShared(m) && SharedIsRunning(m)
    ensures var m' := AdvanceWorker(m, w, o);
      w < |m'.workers| && (m'.workers[w].phase.VersionJoin? ==>
        var j := m'.workers[w].phase.joined;
        j < |m'.workers| && m'.workers[j].kind.SharedInit? && (m.workers[w].kind.SharedInit? ==> j == w))
  {
  }

  lemma {:induction false} RunJoinsShared(sc: bool, steps: seq<Step>)
    ensures JoinsShared(Run(sc, steps))
  {
    if steps != [] {
      var m, step := Run(sc, steps[..|steps| - 1]), steps[|steps| - 1];
      RunJoinsShared(sc, steps[..|steps| - 1]);
      SharedIsAlwaysRunning(sc, steps[..|steps| - 1]);
      if step.Advance? && step.worker < |m.workers| {
        AdvanceKeepsJoinsShared(m, step.worker, step.outcome);
      } else {
        CallKeepsWorkers(sc, m, step);
      }
    }
  }

  // A step that is no worker's adds at most one worker, and changes none.
  lemma CallKeepsWorkers(sc: bool, m: Manager, step: Step)
    requires step.Advance? ==> step.worker >= |m.workers|
    ensures var m' := Next(sc, m, step);
      && |m.workers| <= |m'.workers| <= |m.workers| + 1
      && (forall i :: 0 <= i < |m.workers| ==> m'.workers[i] == m.workers[i])
      && (|m'.workers| > |m.workers| ==> !m'.workers[|m.workers|].phase.VersionJoin?)
  {
  }

  lemma CauseLasts(sc: bool, steps: seq<Step>, n: nat, i: nat, e: Error)
    requires n <= |steps| && HasCause(sc, steps[..n], i, e)
    ensures HasCause(sc, steps, i, e)
  {
    var k :| 0 <= k < n && IsCause(Run(sc, steps[..n][..k]), steps[..n][k], i, e);
    assert steps[..n][..k] == steps[..k];
  }

  lemma ExplanationLasts(sc: bool, steps: seq<Step>, m': Manager, i: nat, e: Error)
    requires steps != []
    requires var m := Run(sc, steps[..|steps| - 1]);
      && i < |m.workers| <= |m'.workers| && Explained(sc, steps[..|steps| - 1], m, i, e)
      && forall j :: 0 <= j < |m.workers| ==> m'.workers[j].kind == m.workers[j].kind
    ensures Explained(sc, steps, m', i, e)
  {
    var n := |steps| - 1;
    var m := Run(sc, steps[..n]);
    if HasCause(sc, steps[..n], i, e) {
      CauseLasts(sc, steps, n, i, e);
    } else {
      var j :| 0 <= j < |m.workers| && m.workers[j].kind.SharedInit? && HasCause(sc, steps[..n], j, e);
      CauseLasts(sc, steps, n, j, e);
    }
  }

  lemma StepKinds(sc: bool, m: Manager, step: Step)
    requires SharedIsRunning(m)
    ensures |m.workers| <= |Next(sc, m, step).workers|
    ensures forall j :: 0 <= j < |m.workers| ==> Next(sc, m, step).workers[j].kind == m.workers[j].kind
  {
    if step.Advance? && step.worker < |m.workers| {
      AdvanceKeepsOtherWorkers(m, step.worker, step.outcome);
      AdvanceKeepsKind(m, step.worker, step.outcome);
    } else {
      CallKeepsWorkers(sc, m, step);
    }
  }

  // The error a worker has after a step is the one it had, or this step caused it, or it is the one it joined.
  lemma ErrorAfterStep(sc: bool, steps: seq<Step>, i: nat, e: Error)
    requires steps != []
    requires var m := Run(sc, steps[..|steps| - 1]); AllExplained(sc, steps[..|steps| - 1], m) && JoinsShared(m)
                                                     && SharedIsRunning(m)
    requires i < |Run(sc, steps).workers| && ReplyOf(Run(sc, steps).workers[i]) == Some(Err(e))
    ensures Explained(sc, steps, Run(sc, steps), i, e)
  {
    var n := |steps| - 1;
    var m, m', step := Run(sc, steps[..n]), Run(sc, steps), steps[n];
    StepKinds(sc, m, step);
    if i < |m.workers| && m'.workers[i] == m.workers[i] {
      ExplanationLasts(sc, steps, m', i, e);
    } else if IsCause(m, step, i, e) {
      assert HasCause(sc, steps, i, e);
    } else {
      CallKeepsReplies(sc, m, step, i, e);
      AdvanceKeepsOtherReplies(m, step, i);
      if ReplyOf(m.workers[i]).Some? {
        AnsweredKeepsError(m, i, step.outcome, e);
        ExplanationLasts(sc, steps, m', i, e);
      } else {
        AnsweredExactlyWhen(m, i, step.outcome);
        JoinedErrorIsExplained(sc, steps, m, m', i, e);
      }
    }
  }

  lemma JoinedErrorIsExplained(sc: bool, steps: seq<Step>, m: Manager, m': Manager, i: nat, e: Error)
    requires steps != [] && m == Run(sc, steps[..|steps| - 1])
    requires AllExplained(sc, steps[..|steps| - 1], m) && JoinsShared(m)
    requires i < |m.workers| <= |m'.workers| && JoinedError(m, i) == Some(e)
    requires forall j :: 0 <= j < |m.workers| ==> m'.workers[j].kind == m.workers[j].kind
    ensures Explained(sc, steps, m', i, e)
  {
    var n, j := |steps| - 1, m.workers[i].phase.joined;
    assert Explained(sc, steps[..n], m, j, e);
    CauseLasts(sc, steps, n, j, e);
  }

  lemma CallKeepsReplies(sc: bool, m: Manager, step: Step, i: nat, e: Error)
    requires i < |Next(sc, m, step).workers| && ReplyOf(Next(sc, m, step).workers[i]) == Some(Err(e))
    requires !IsCause(m, step, i, e) && (i < |m.workers| ==> Next(sc, m, step).workers[i] != m.workers[i])
    ensures step.Advance? && step.worker < |m.workers|
    ensures i < |m.workers| && i == step.worker
  {
    if step.Advance? && step.worker < |m.workers| {
      AdvanceStartsNoReply(m, step.worker, step.outcome);
    }
  }

  lemma AdvanceStartsNoReply(m: Manager, w: nat, o: Outcome)
    requires w < |m.workers|
    ensures var m' := AdvanceWorker(m, w, o);
      && |m.workers| <= |m'.workers|
      && (forall i :: 0 <= i < |m.workers| && i != w ==> m'.workers[i] == m.workers[i])
      && (forall i :: |m.workers| <= i < |m'.workers| ==> ReplyOf(m'.workers[i]).None?)
  {
  }

  lemma AdvanceKeepsOtherReplies(m: Manager, step: Step, i: nat)
    requires step.Advance? && step.worker == i < |m.workers|
    ensures Next(true, m, step) == AdvanceWorker(m, i, step.outcome) == Next(false, m, step)
  {
  }

  /** In every interleaving each error a call ends with has its cause, in a step of its own worker or of the shared
      initialisation it joined; one that is shared has it in a step of its own. */
  lemma {:induction false} ErrorsHaveCauses(sc: bool, steps: seq<Step>)
    ensures AllExplained(sc, steps, Run(sc, steps))
  {
    if steps != [] {
      var m' := Run(sc, steps);
      ErrorsHaveCauses(sc, steps[..|steps| - 1]);
      RunJoinsShared(sc, steps[..|steps| - 1]);
      SharedIsAlwaysRunning(sc, steps[..|steps| - 1]);
      forall i | 0 <= i < |m'.workers| && ReplyOf(m'.workers[i]).Some? && ReplyOf(m'.workers[i]).value.Err?
        ensures Explained(sc, steps, m', i, ReplyOf(m'.workers[i]).value.error)
      {
        ErrorAfterStep(sc, steps, i, ReplyOf(m'.workers[i]).value.error);
      }
    }
  }

  /** An initialisation on demand finds no store only if its own open found none while the agent context was not
      initialised. */
  lemma NotFoundOnlyWhenNotInitialized(sc: bool, steps: seq<Step>, i: nat)
    requires i < |Run(sc, steps).workers| && Run(sc, steps).workers[i] == Worker(SharedInit, Finished(Err(NotFound)))
    ensures exists k :: 0 <= k < |steps| && steps[k] == Advance(i, Missing(false))
                        && i < |Run(sc, steps[..k]).workers| && Run(sc, steps[..k]).workers[i].phase.OpenNative?
  {
    ErrorsHaveCauses(sc, steps);
    assert Explained(sc, steps, Run(sc, steps), i, NotFound);
    var k :| 0 <= k < |steps| && IsCause(Run(sc, steps[..k]), steps[k], i, NotFound);
    KindLasts(sc, steps, k, i);
  }

  lemma {:induction false} KindLasts(sc: bool, steps: seq<Step>, k: nat, i: nat)
    requires k <= |steps| && i < |Run(sc, steps[..k]).workers|
    ensures i < |Run(sc, steps).workers| && Run(sc, steps).workers[i].kind == Run(sc, steps[..k]).workers[i].kind
  {
    if k == |steps| {
      assert steps[..k] == steps;
    } else {
      var front := steps[..|steps| - 1];
      assert front[..k] == steps[..k];
      KindLasts(sc, front, k, i);
      SharedIsAlwaysRunning(sc, front);
      StepKinds(sc, Run(sc, front), steps[|steps| - 1]);
    }
  }

  // ---- Shared initialisation opens the store once ----

  predicate BeforeOpen(w: Worker) {
    w.phase.OpenConfig? || w.phase.OpenNative? || w.phase.ProvisionConfig? || w.phase.ProvisionNative?
  }

  ghost predicate OpenedOnce(m: Manager) {
    OneStore(m, 0, 0) && Once(m)
  }

  ghost predicate Once(m: Manager) {
    && m.next <= 1
    && (forall i :: 0 <= i < |m.workers| ==> m.workers[i].kind.SharedInit? && !m.workers[i].phase.ClosingLoser?)
    && (forall i :: 0 <= i < |m.workers| && BeforeOpen(m.workers[i]) ==> m.next == 0)
    && (m.next == 0 ==> m.registered.None? && forall i :: 0 <= i < |m.workers| ==> Held(m.workers[i]).None?)
    && (m.next == 1 && m.registered.None? ==>
          m.shared.Some? && m.shared.value < |m.workers| && m.workers[m.shared.value].phase.Register?)
    && (forall i :: 0 <= i < |m.workers| && m.workers[i].phase.Register? ==> m.registered.None?)
  }

  predicate InitializesOnly(step: Step) {
    step.CallInitialized? || step.Advance? || step.Deliver?
  }

  lemma OnlyTheSharedWorkerAdvances(m: Manager, w: nat, o: Outcome)
    requires OpenedOnce(m) && w < |m.workers|
    ensures var m' := AdvanceWorker(m, w, o);
            |m'.workers| == |m.workers| && forall i :: 0 <= i < |m.workers| && i != w ==> m'.workers[i] == m.workers[i]
    ensures !m.workers[w].phase.Finished? ==>
              m.shared == Some(w) && forall i :: 0 <= i < |m.workers| && i != w ==> m.workers[i].phase.Finished?
  {
  }

  lemma AdvanceKeepsOpenedOnce(m: Manager, w: nat, o: Outcome)
    requires OpenedOnce(m) && w < |m.workers|
    ensures OpenedOnce(AdvanceWorker(m, w, o))
  {
    AdvanceKeepsOneStore(m, w, o, 0, 0);
    OnlyTheSharedWorkerAdvances(m, w, o);
    if !m.workers[w].phase.Finished? {
      assert AgreesWith(m.workers[w], m.registered);
      SharedWorkerKeepsOnce(m, w, o);
    }
  }

  lemma SharedWorkerKeepsOnce(m: Manager, w: nat, o: Outcome)
    requires Once(m) && w < |m.workers| && AgreesWith(m.workers[w], m.registered) && m.shared == Some(w)
    requires forall i :: 0 <= i < |m.workers| && i != w ==> m.workers[i].phase.Finished?
    requires var m' := AdvanceWorker(m, w, o);
             |m'.workers| == |m.workers| && forall i :: 0 <= i < |m.workers| && i != w ==> m'.workers[i] == m.workers[i]
    ensures Once(AdvanceWorker(m, w, o))
  {
  }

  /** When the store is only ever initialised on demand, however many callers race, it is opened at most once. */
  lemma {:induction false} SharedInitializationOpensOnce(steps: seq<Step>)
    requires forall i :: 0 <= i < |steps| ==> InitializesOnly(steps[i])
    ensures OpenedOnce(Run(true, steps))
    ensures Run(true, steps).next <= 1
  {
    if steps != [] {
      var m, step := Run(true, steps[..|steps| - 1]), steps[|steps| - 1];
      SharedInitializationOpensOnce(steps[..|steps| - 1]);
      assert InitializesOnly(step);
      StepKeepsOneStore(m, step, 0, 0);
      if step.Advance? && step.worker < |m.workers| {
        AdvanceKeepsOpenedOnce(m, step.worker, step.outcome);
      }
    }
  }
}
