/** Two parties running the Action Menu protocol over a channel that may lose, reorder and, if configured so,
    duplicate messages. */
module ActionMenuProtocol {
  import opened Wrappers
  import opened ActionMenu

  datatype Message =
    | MenuRequest(id: string)
    | MenuOffer(id: string, thread: string, menu: Menu)
    | PerformAction(id: string, thread: string, selection: Selection)
    | ProblemReport(id: string)

  /** What a requester chose, or what a responder accepted. */
  datatype Choice = Choice(thread: string, menu: Menu, selection: Selection)

  /** `used` holds every message id ever generated. `performed` and `accepted` are the history: the choice behind
      each perform message the requester created, and each perform message the responder accepted together with
      the thread and the menu the responder's record held at that moment. */
  datatype Net = Net(
    requester: Option<Record>,
    responder: Option<Record>,
    toResponder: set<Message>,
    toRequester: set<Message>,
    used: set<string>,
    performed: map<string, Choice>,
    accepted: seq<(string, Choice)>)

  datatype Config = Config(strictRequester: bool, strictResponder: bool, duplicating: bool)

  /** `again` leaves a delivered message in the channel, so that it can be delivered once more. */
  datatype Step =
    | CreateRequest(id: string)
    | DeliverRequest(m: Message, again: bool)
    | CreateMenu(id: string, menu: Menu)
    | DeliverMenu(m: Message, again: bool)
    | CreatePerform(id: string, selection: Selection)
    | DeliverPerform(m: Message, again: bool, reportId: string)
    | DeliverReport(m: Message, again: bool)
    | ClearRequester
    | ClearResponder
    | Drop(m: Message)

  const CONNECTION: string := "connection"

  const START: Net := Net(None, None, {}, {}, {}, map[], [])

  function Receive(cfg: Config, channel: set<Message>, m: Message, again: bool): set<Message> {
    if again && cfg.duplicating then channel else channel - {m}
  }

  /** One step of either party or of the channel. A step that is not possible changes nothing: an id that was used
      before, a message that is not in the channel, a service call that throws. */
  function Next(cfg: Config, n: Net, step: Step): Net {
    match step
    case CreateRequest(id) =>
      if id in n.used then n
      else n.(requester := Some(RequestSent(CONNECTION, id)),
              toResponder := n.toResponder + {MenuRequest(id)},
              used := n.used + {id})
    case DeliverRequest(m, again) =>
      if m !in n.toResponder || !m.MenuRequest? then n
      else n.(responder := Some(RequestReceived(n.responder, CONNECTION, m.id, m.id)),
              toResponder := Receive(cfg, n.toResponder, m, again))
    case CreateMenu(id, menu) =>
      var r := MenuSent(n.responder, CONNECTION, id, menu, cfg.strictResponder);
      if id in n.used || r.Err? then n
      else n.(responder := Some(r.value),
              toRequester := n.toRequester + {MenuOffer(id, r.value.threadId, menu)},
              used := n.used + {id})
    case DeliverMenu(m, again) =>
      if m !in n.toRequester || !m.MenuOffer? then n
      else n.(requester := Some(MenuReceived(CONNECTION, m.thread, m.menu)),
              toRequester := Receive(cfg, n.toRequester, m, again))
    case CreatePerform(id, selection) =>
      if id in n.used || n.requester.None? then n
      else
        var r := PerformSent(n.requester.value, selection, cfg.strictRequester);
        if r.Err? then n
        else n.(requester := Some(r.value),
                toResponder := n.toResponder + {PerformAction(id, r.value.threadId, selection)},
                used := n.used + {id},
                performed := n.performed[id := Choice(r.value.threadId, r.value.menu.value, selection)])
    case DeliverPerform(m, again, reportId) =>
      if m !in n.toResponder || !m.PerformAction? then n
      else
        var rest := Receive(cfg, n.toResponder, m, again);
        var r := PerformReceived(n.responder, m.thread, m.selection, cfg.strictResponder);
        if r == Err(MenuCleared) && reportId !in n.used then
          n.(toResponder := rest,
             toRequester := n.toRequester + {ProblemReport(reportId)},
             used := n.used + {reportId})
        else if r.Err? then n.(toResponder := rest)
        else n.(responder := Some(r.value),
                toResponder := rest,
                accepted := n.accepted
                  + [(m.id, Choice(r.value.threadId, r.value.menu.value, r.value.performed.value))])
    case DeliverReport(m, again) =>
      if m !in n.toRequester || !m.ProblemReport? || n.requester.None? then n
      else n.(requester := Some(Cleared(n.requester.value)),
              toRequester := Receive(cfg, n.toRequester, m, again))
    case ClearRequester =>
      if n.requester.None? then n else n.(requester := Some(Cleared(n.requester.value)))
    case ClearResponder =>
      if n.responder.None? then n else n.(responder := Some(Cleared(n.responder.value)))
    case Drop(m) =>
      n.(toResponder := n.toResponder - {m}, toRequester := n.toRequester - {m})
  }

  function RunFrom(cfg: Config, n: Net, steps: seq<Step>): Net
    decreases |steps|
  {
    if steps == [] then n else RunFrom(cfg, Next(cfg, n, steps[0]), steps[1..])
  }

  /** The requester chose each accepted action from exactly the menu the responder held, in the same thread, and no
      perform message was accepted twice. */
  ghost predicate Agreement(n: Net) {
    && (forall i :: 0 <= i < |n.accepted| ==>
          n.accepted[i].0 in n.performed && n.performed[n.accepted[i].0] == n.accepted[i].1)
    && (forall i, j :: 0 <= i < j < |n.accepted| ==> n.accepted[i].0 != n.accepted[j].0)
  }

  // ---- The invariant: within the responder's thread the menu is a single token ----

  predicate MenuToken(m: Message, t: string) {
    m.MenuOffer? && m.thread == t
  }

  predicate PerformToken(m: Message, t: string) {
    m.PerformAction? && m.thread == t
  }

  predicate RequesterToken(n: Net, t: string) {
    n.requester.Some? && n.requester.value.state.PreparingSelection? && n.requester.value.threadId == t
  }

  ghost predicate NoToken(n: Net, t: string) {
    && (forall m :: m in n.toRequester ==> !MenuToken(m, t))
    && (forall m :: m in n.toResponder ==> !PerformToken(m, t))
    && !RequesterToken(n, t)
  }

  /** At most one of: one menu message under way, the requester about to choose, one perform message under way; and
      whichever it is, it is about this menu. */
  ghost predicate OneToken(n: Net, t: string, menu: Menu) {
    && (forall m :: m in n.toRequester && MenuToken(m, t) ==> m.menu == menu)
    && (forall m :: m in n.toResponder && PerformToken(m, t) ==>
          m.id in n.performed && n.performed[m.id].menu == menu)
    && (RequesterToken(n, t) ==> n.requester.value.menu == Some(menu))
    && (forall m, k :: m in n.toRequester && k in n.toRequester && MenuToken(m, t) && MenuToken(k, t) ==> m == k)
    && (forall m, k :: m in n.toResponder && k in n.toResponder && PerformToken(m, t) && PerformToken(k, t) ==> m == k)
    && (forall m, k :: m in n.toRequester && k in n.toResponder && MenuToken(m, t) ==> !PerformToken(k, t))
    && (RequesterToken(n, t) ==> forall m :: m in n.toRequester ==> !MenuToken(m, t))
    && (RequesterToken(n, t) ==> forall m :: m in n.toResponder ==> !PerformToken(m, t))
  }

  ghost predicate MessagesKnown(n: Net) {
    && (forall m :: m in n.toResponder ==> m.id in n.used)
    && (forall m :: m in n.toRequester ==> m.id in n.used)
    && (forall m :: m in n.toRequester && m.MenuOffer? ==> m.thread in n.used)
    && (forall m :: m in n.toResponder && m.PerformAction? ==> m.thread in n.used)
    && (forall m, k :: m in n.toResponder && k in n.toResponder && m.id == k.id ==> m == k)
  }

  ghost predicate PartiesKnown(n: Net) {
    && (n.requester.Some? ==>
          n.requester.value.threadId in n.used && n.requester.value.role.Requester? && Coherent(n.requester.value))
    && (n.responder.Some? ==>
          n.responder.value.threadId in n.used && n.responder.value.role.Responder? && Coherent(n.responder.value))
  }

  ghost predicate HistoryKnown(n: Net) {
    && n.performed.Keys <= n.used
    && (forall m :: m in n.toResponder && m.PerformAction? ==>
          m.id in n.performed && n.performed[m.id].thread == m.thread && n.performed[m.id].selection == m.selection)
    && (forall i :: 0 <= i < |n.accepted| ==> n.accepted[i].0 in n.used)
    && (forall i, m :: 0 <= i < |n.accepted| && m in n.toResponder ==> m.id != n.accepted[i].0)
  }

  ghost predicate Bookkeeping(n: Net) {
    MessagesKnown(n) && PartiesKnown(n) && HistoryKnown(n)
  }

  ghost predicate Tokens(n: Net) {
    && (n.responder.Some? ==>
          var r := n.responder.value;
          && (r.state.Done? || r.state.PreparingRootMenu? ==> NoToken(n, r.threadId))
          && (r.state.AwaitingSelection? ==> r.menu.Some? && OneToken(n, r.threadId, r.menu.value)))
    // A request that was not delivered yet names a thread nobody has joined.
    && (forall m :: m in n.toResponder && m.MenuRequest? ==>
          NoToken(n, m.id) && (n.responder.Some? ==> n.responder.value.threadId != m.id))
  }

  ghost predicate Inv(n: Net) {
    Bookkeeping(n) && Tokens(n) && Agreement(n)
  }

  predicate Reliable(cfg: Config) {
    cfg.strictRequester && cfg.strictResponder && !cfg.duplicating
  }

  lemma StepKeepsMessagesKnown(cfg: Config, n: Net, step: Step)
    requires Bookkeeping(n)
    ensures MessagesKnown(Next(cfg, n, step))
  {
  }

  lemma StepKeepsPartiesKnown(cfg: Config, n: Net, step: Step)
    requires Bookkeeping(n)
    ensures PartiesKnown(Next(cfg, n, step))
  {
  }

  lemma StepKeepsHistoryKnown(cfg: Config, n: Net, step: Step)
    requires Reliable(cfg) && Bookkeeping(n)
    ensures HistoryKnown(Next(cfg, n, step))
  {
  }

  lemma StepKeepsAgreement(cfg: Config, n: Net, step: Step)
    requires Reliable(cfg) && Inv(n)
    ensures Agreement(Next(cfg, n, step))
  {
  }

  lemma CreateRequestKeepsTokens(cfg: Config, n: Net, step: Step)
    requires Reliable(cfg) && Inv(n) && step.CreateRequest?
    ensures Tokens(Next(cfg, n, step))
  {
  }

  lemma DeliverRequestKeepsTokens(cfg: Config, n: Net, step: Step)
    requires Reliable(cfg) && Inv(n) && step.DeliverRequest?
    ensures Tokens(Next(cfg, n, step))
  {
  }

  lemma CreateMenuKeepsTokens(cfg: Config, n: Net, step: Step)
    requires Reliable(cfg) && Inv(n) && step.CreateMenu?
    ensures Tokens(Next(cfg, n, step))
  {
  }

  lemma DeliverMenuKeepsTokens(cfg: Config, n: Net, step: Step)
    requires Reliable(cfg) && Inv(n) && step.DeliverMenu?
    ensures Tokens(Next(cfg, n, step))
  {
  }

  lemma CreatePerformKeepsTokens(cfg: Config, n: Net, step: Step)
    requires Reliable(cfg) && Inv(n) && step.CreatePerform?
    ensures Tokens(Next(cfg, n, step))
  {
  }

  lemma DeliverPerformKeepsTokens(cfg: Config, n: Net, step: Step)
    requires Reliable(cfg) && Inv(n) && step.DeliverPerform?
    ensures Tokens(Next(cfg, n, step))
  {
    var m, n' := step.m, Next(cfg, n, step);
    if m in n.toResponder && m.PerformAction? {
      if PerformReceived(n.responder, m.thread, m.selection, true).Ok? {
        AcceptingSpendsTheToken(n, m);
        FewerTokens(n, n');
      } else {
        FewerTokens(n, n');
      }
    }
  }

  // Once the only token of the thread, this perform message, is consumed, none is left.
  lemma AcceptingSpendsTheToken(n: Net, m: Message)
    requires Inv(n) && m in n.toResponder && m.PerformAction?
    requires PerformReceived(n.responder, m.thread, m.selection, true).Ok?
    ensures NoToken(n.(toResponder := n.toResponder - {m}), m.thread)
    ensures n.performed[m.id].menu == n.responder.value.menu.value
  {
  }

  // A state that differs by no new menu and no new perform message has no new token.
  lemma FewerTokens(n: Net, n': Net)
    requires n'.requester == n.requester && n'.performed == n.performed && n'.toResponder <= n.toResponder
    requires forall m :: m in n'.toRequester && m.MenuOffer? ==> m in n.toRequester
    ensures forall t :: NoToken(n, t) ==> NoToken(n', t)
    ensures forall t, menu :: OneToken(n, t, menu) ==> OneToken(n', t, menu)
  {
    forall t, menu | OneToken(n, t, menu) ensures OneToken(n', t, menu) {
      OneTokenLess(n, n', t, menu);
    }
  }

  lemma OneTokenLess(n: Net, n': Net, t: string, menu: Menu)
    requires n'.requester == n.requester && n'.performed == n.performed && n'.toResponder <= n.toResponder
    requires forall m :: m in n'.toRequester && m.MenuOffer? ==> m in n.toRequester
    requires OneToken(n, t, menu)
    ensures OneToken(n', t, menu)
  {
  }

  lemma DeliverReportKeepsTokens(cfg: Config, n: Net, step: Step)
    requires Reliable(cfg) && Inv(n) && step.DeliverReport?
    ensures Tokens(Next(cfg, n, step))
  {
  }

  lemma ClearRequesterKeepsTokens(cfg: Config, n: Net, step: Step)
    requires Reliable(cfg) && Inv(n) && step.ClearRequester?
    ensures Tokens(Next(cfg, n, step))
  {
  }

  lemma ClearResponderKeepsTokens(cfg: Config, n: Net, step: Step)
    requires Reliable(cfg) && Inv(n) && step.ClearResponder?
    ensures Tokens(Next(cfg, n, step))
  {
  }

  lemma DropKeepsTokens(cfg: Config, n: Net, step: Step)
    requires Reliable(cfg) && Inv(n) && step.Drop?
    ensures Tokens(Next(cfg, n, step))
  {
  }

  lemma StepKeepsInv(cfg: Config, n: Net, step: Step)
    requires Reliable(cfg) && Inv(n)
    ensures Inv(Next(cfg, n, step))
  {
    StepKeepsMessagesKnown(cfg, n, step);
    StepKeepsPartiesKnown(cfg, n, step);
    StepKeepsHistoryKnown(cfg, n, step);
    StepKeepsAgreement(cfg, n, step);
    match step
    case CreateRequest(_) => CreateRequestKeepsTokens(cfg, n, step);
    case DeliverRequest(_, _) => DeliverRequestKeepsTokens(cfg, n, step);
    case CreateMenu(_, _) => CreateMenuKeepsTokens(cfg, n, step);
    case DeliverMenu(_, _) => DeliverMenuKeepsTokens(cfg, n, step);
    case CreatePerform(_, _) => CreatePerformKeepsTokens(cfg, n, step);
    case DeliverPerform(_, _, _) => DeliverPerformKeepsTokens(cfg, n, step);
    case DeliverReport(_, _) => DeliverReportKeepsTokens(cfg, n, step);
    case ClearRequester => ClearRequesterKeepsTokens(cfg, n, step);
    case ClearResponder => ClearResponderKeepsTokens(cfg, n, step);
    case Drop(_) => DropKeepsTokens(cfg, n, step);
  }

  lemma {:induction false} RunKeepsInv(cfg: Config, n: Net, steps: seq<Step>)
    requires Reliable(cfg) && Inv(n)
    ensures Inv(RunFrom(cfg, n, steps))
    decreases |steps|
  {
    if steps != [] {
      StepKeepsInv(cfg, n, steps[0]);
      RunKeepsInv(cfg, Next(cfg, n, steps[0]), steps[1..]);
    }
  }

  // ---- A round can always be completed ----

  /** A request, the menu it is answered with and a choice from it, each delivered. */
  function Round(request: string, offer: string, choice: string, menu: Menu, selection: Selection): seq<Step> {
    [Step.CreateRequest(request), DeliverRequest(MenuRequest(request), false),
     Step.CreateMenu(offer, menu), DeliverMenu(MenuOffer(offer, request, menu), false),
     Step.CreatePerform(choice, selection), DeliverPerform(PerformAction(choice, request, selection), false, request)]
  }

  // Both parties are in the thread of a request that was answered, and nothing else was sent or accepted.
  predicate Requested(n: Net, n': Net, request: string) {
    && n'.requester == Some(Record(CONNECTION, Requester, AwaitingRootMenu, request, None, None))
    && n'.responder == Some(Record(CONNECTION, Responder, PreparingRootMenu, request, None, None))
    && n'.toRequester == n.toRequester && n'.toResponder == n.toResponder - {MenuRequest(request)}
    && n'.used == n.used + {request} && n'.performed == n.performed && n'.accepted == n.accepted
  }

  lemma RequestArrives(cfg: Config, n: Net, request: string)
    requires request !in n.used
    ensures Requested(n, Next(cfg, Next(cfg, n, Step.CreateRequest(request)), DeliverRequest(MenuRequest(request), false)),
                      request)
  {
  }

  lemma MenuArrives(cfg: Config, n: Net, request: string, offer: string, menu: Menu)
    requires n.responder == Some(Record(CONNECTION, Responder, PreparingRootMenu, request, None, None))
    requires offer !in n.used && DistinctNames(menu)
    ensures Next(cfg, Next(cfg, n, Step.CreateMenu(offer, menu)), DeliverMenu(MenuOffer(offer, request, menu), false))
         == n.(responder := Some(Record(CONNECTION, Responder, AwaitingSelection, request, Some(menu), None)),
               requester := Some(Record(CONNECTION, Requester, PreparingSelection, request, Some(menu), None)),
               toRequester := n.toRequester - {MenuOffer(offer, request, menu)}, used := n.used + {offer})
  {
  }

  lemma ChoiceArrives(cfg: Config, n: Net, request: string, choice: string, menu: Menu, selection: Selection)
    requires n.responder == Some(Record(CONNECTION, Responder, AwaitingSelection, request, Some(menu), None))
    requires n.requester == Some(Record(CONNECTION, Requester, PreparingSelection, request, Some(menu), None))
    requires choice !in n.used && Offers(menu, selection.name)
    ensures var m := PerformAction(choice, request, selection);
      Next(cfg, Next(cfg, n, Step.CreatePerform(choice, selection)), DeliverPerform(m, false, request))
      == n.(responder := Some(Record(CONNECTION, Responder, Done, request, Some(menu), Some(selection))),
            requester := Some(Record(CONNECTION, Requester, Done, request, Some(menu), Some(selection))),
            toResponder := n.toResponder - {m}, used := n.used + {choice},
            performed := n.performed[choice := Choice(request, menu, selection)],
            accepted := n.accepted + [(choice, Choice(request, menu, selection))])
  {
  }

  /** From any state, in any configuration, with fresh ids: if the channel delivers, every menu can be asked for and every
      choice from it is performed and accepted, with the menu and in the thread of the request. */
  lemma RoundCompletes(cfg: Config, n: Net, request: string, offer: string, choice: string, menu: Menu, selection: Selection)
    requires request !in n.used && offer !in n.used && choice !in n.used
    requires request != offer && request != choice && offer != choice
    requires DistinctNames(menu) && Offers(menu, selection.name)
    ensures var after := RunFrom(cfg, n, Round(request, offer, choice, menu, selection));
      && after.accepted == n.accepted + [(choice, Choice(request, menu, selection))]
      && after.performed == n.performed[choice := Choice(request, menu, selection)]
      && after.requester == Some(Record(CONNECTION, Requester, Done, request, Some(menu), Some(selection)))
      && after.responder == Some(Record(CONNECTION, Responder, Done, request, Some(menu), Some(selection)))
  {
    var s := Round(request, offer, choice, menu, selection);
    var n2 := Next(cfg, Next(cfg, n, s[0]), s[1]);
    RequestArrives(cfg, n, request);
    var n4 := Next(cfg, Next(cfg, n2, s[2]), s[3]);
    MenuArrives(cfg, n2, request, offer, menu);
    ChoiceArrives(cfg, n4, request, choice, menu, selection);
    TwoSteps(cfg, n, s[0], s[1]);
    TwoSteps(cfg, n2, s[2], s[3]);
    TwoSteps(cfg, n4, s[4], s[5]);
    RunInTwoParts(cfg, n, [s[0], s[1]], [s[2], s[3]]);
    RunInTwoParts(cfg, n, [s[0], s[1]] + [s[2], s[3]], [s[4], s[5]]);
    assert s == [s[0], s[1]] + [s[2], s[3]] + [s[4], s[5]];
  }

  // ---- Steps without an answer ----

  /** What is left of a channel after a message of it was delivered. */
  function Left(cfg: Config, channel: set<Message>, m: Message, again: bool): set<Message> {
    if cfg.duplicating && again then channel else channel - {m}
  }

  /** A choice that is refused is consumed, and only one that meets a cleared record is answered. */
  lemma RefusedChoiceIsConsumed(cfg: Config, n: Net, m: Message, again: bool, reportId: string)
    requires m in n.toResponder && m.PerformAction?
    requires PerformReceived(n.responder, m.thread, m.selection, cfg.strictResponder).Err?
    ensures var cleared := n.responder.Some? && n.responder.value.threadId == m.thread && n.responder.value.state == Null;
      var rest := n.(toResponder := Left(cfg, n.toResponder, m, again));
      Next(cfg, n, DeliverPerform(m, again, reportId)) ==
      if cleared && reportId !in n.used
      then rest.(toRequester := n.toRequester + {ProblemReport(reportId)}, used := n.used + {reportId}) else rest
  {
  }

  /** A problem report, and nothing else, clears the requester's record and is consumed. */
  lemma ReportIsConsumed(cfg: Config, n: Net, m: Message, again: bool)
    ensures Next(cfg, n, DeliverReport(m, again)) ==
      if m in n.toRequester && m.ProblemReport? && n.requester.Some?
      then n.(requester := Some(n.requester.value.(state := Null, menu := None, performed := None)),
              toRequester := Left(cfg, n.toRequester, m, again))
      else n
  {
  }

  /** A party that clears its own record changes nothing else, and a lost message is in no channel. */
  lemma ClearingAndLosing(cfg: Config, n: Net, m: Message)
    ensures n.requester.Some? ==>
      Next(cfg, n, ClearRequester) == n.(requester := Some(n.requester.value.(state := Null, menu := None, performed := None)))
    ensures n.responder.Some? ==>
      Next(cfg, n, ClearResponder) == n.(responder := Some(n.responder.value.(state := Null, menu := None, performed := None)))
    ensures Next(cfg, n, Drop(m)) == n.(toResponder := n.toResponder - {m}, toRequester := n.toRequester - {m})
  {
  }

  // ---- After a clear, in any configuration ----

  ghost predicate NoMenuSent(steps: seq<Step>) {
    forall i :: 0 <= i < |steps| ==> !steps[i].CreateMenu?
  }

  lemma {:induction false} WithoutMenuNothingIsAccepted(cfg: Config, n: Net, steps: seq<Step>)
    requires n.responder.Some? ==> n.responder.value.menu.None?
    requires NoMenuSent(steps)
    ensures RunFrom(cfg, n, steps).accepted == n.accepted
    decreases |steps|
  {
    if steps != [] {
      assert !steps[0].CreateMenu?;
      WithoutMenuNothingIsAccepted(cfg, Next(cfg, n, steps[0]), steps[1..]);
    }
  }

  /** After the responder cleared its record it accepts no choice until it sends a menu again. */
  lemma ClearedAcceptsNothing(cfg: Config, n: Net, steps: seq<Step>)
    requires NoMenuSent(steps)
    requires n.responder.Some?
    ensures RunFrom(cfg, Next(cfg, n, ClearResponder), steps).accepted == n.accepted
  {
    WithoutMenuNothingIsAccepted(cfg, Next(cfg, n, ClearResponder), steps);
  }

  /** Until it sends a menu or receives a request, nothing changes a record that was cleared. */
  lemma {:induction false} ClearedStaysCleared(cfg: Config, n: Net, steps: seq<Step>)
    requires n.responder.Some? && n.responder.value.state == Null
    requires n.responder.value.menu.None? && n.responder.value.performed.None?
    requires NoMenuSent(steps) && forall i :: 0 <= i < |steps| ==> !steps[i].DeliverRequest?
    ensures RunFrom(cfg, n, steps).responder == n.responder
    decreases |steps|
  {
    if steps != [] {
      assert !steps[0].CreateMenu? && !steps[0].DeliverRequest?;
      ClearedStaysCleared(cfg, Next(cfg, n, steps[0]), steps[1..]);
    }
  }

  lemma NullIsAnsweredWithAReport(cfg: Config, n: Net, m: Message, again: bool, reportId: string)
    requires n.responder.Some? && n.responder.value.state == Null
    requires m.PerformAction? && m in n.toResponder && m.thread == n.responder.value.threadId && reportId !in n.used
    ensures PerformReceived(n.responder, m.thread, m.selection, cfg.strictResponder) == Err(MenuCleared)
    ensures var after := Next(cfg, n, DeliverPerform(m, again, reportId));
      && after.toRequester == n.toRequester + {ProblemReport(reportId)}
      && after.toResponder == (if again && cfg.duplicating then n.toResponder else n.toResponder - {m})
      && after.responder == n.responder && after.requester == n.requester && after.accepted == n.accepted
  {
  }

  lemma ClearedIsNull(cfg: Config, n: Net, steps: seq<Step>)
    requires n.responder.Some? && NoMenuSent(steps) && forall i :: 0 <= i < |steps| ==> !steps[i].DeliverRequest?
    ensures var after := RunFrom(cfg, Next(cfg, n, ClearResponder), steps);
      && after.responder.Some? && after.responder.value.state == Null && after.responder.value.menu.None?
      && after.responder.value.threadId == n.responder.value.threadId
  {
    ClearedStaysCleared(cfg, Next(cfg, n, ClearResponder), steps);
  }

  /** A choice that reaches the responder in that time in the thread of its record is answered with a problem report, and
      changes nothing else. */
  lemma ClearedAnswersWithAReport(
    cfg: Config, n: Net, steps: seq<Step>, later: Net, m: Message, again: bool, reportId: string)
    requires n.responder.Some? && NoMenuSent(steps) && forall i :: 0 <= i < |steps| ==> !steps[i].DeliverRequest?
    requires later == RunFrom(cfg, Next(cfg, n, ClearResponder), steps)
    requires m.PerformAction? && m in later.toResponder && m.thread == n.responder.value.threadId
    requires reportId !in later.used
    ensures PerformReceived(later.responder, m.thread, m.selection, cfg.strictResponder) == Err(MenuCleared)
    ensures var after := Next(cfg, later, DeliverPerform(m, again, reportId));
      && after.toRequester == later.toRequester + {ProblemReport(reportId)}
      && after.responder == later.responder && after.requester == later.requester && after.accepted == later.accepted
  {
    ClearedIsNull(cfg, n, steps);
    NullIsAnsweredWithAReport(cfg, later, m, again, reportId);
  }

  lemma {:induction false} WithoutMenuNothingIsChosen(cfg: Config, n: Net, steps: seq<Step>)
    requires n.requester.Some? ==> n.requester.value.menu.None?
    requires forall i :: 0 <= i < |steps| ==> !steps[i].DeliverMenu?
    ensures RunFrom(cfg, n, steps).performed == n.performed
    decreases |steps|
  {
    if steps != [] {
      assert !steps[0].DeliverMenu?;
      WithoutMenuNothingIsChosen(cfg, Next(cfg, n, steps[0]), steps[1..]);
    }
  }

  /** After a problem report reached the requester it chooses nothing until it receives a menu again. */
  lemma ReportedChoosesNothing(cfg: Config, n: Net, m: Message, again: bool, steps: seq<Step>)
    requires m.ProblemReport? && m in n.toRequester && n.requester.Some?
    requires forall i :: 0 <= i < |steps| ==> !steps[i].DeliverMenu?
    ensures Next(cfg, n, DeliverReport(m, again)).requester.value.state == Null
    ensures RunFrom(cfg, Next(cfg, n, DeliverReport(m, again)), steps).performed == n.performed
  {
    WithoutMenuNothingIsChosen(cfg, Next(cfg, n, DeliverReport(m, again)), steps);
  }

  // ---- Each assumption is needed ----

  const FIRST: Menu := Menu("menu", "", [MenuOption("go", "", "")])
  const SECOND: Menu := Menu("menu", "", [MenuOption("go", "", ""), MenuOption("stop", "", "")])
  const GO: Selection := Selection("go", map[])

  // The responder sends the first menu, in a thread named after that message, and the requester receives it.
  function Offered(cfg: Config): seq<Step> {
    [Step.CreateMenu("m1", FIRST), DeliverMenu(MenuOffer("m1", "m1", FIRST), false)]
  }

  lemma {:induction false} RunInTwoParts(cfg: Config, n: Net, first: seq<Step>, rest: seq<Step>)
    ensures RunFrom(cfg, n, first + rest) == RunFrom(cfg, RunFrom(cfg, n, first), rest)
    decreases |first|
  {
    if first == [] {
      assert first + rest == rest;
    } else {
      assert (first + rest)[1..] == first[1..] + rest;
      RunInTwoParts(cfg, Next(cfg, n, first[0]), first[1..], rest);
    }
  }

  lemma MenuIsOffered(cfg: Config)
    ensures var n := RunFrom(cfg, START, Offered(cfg));
            && n.requester == Some(Record(CONNECTION, Requester, PreparingSelection, "m1", Some(FIRST), None))
            && n.responder == Some(Record(CONNECTION, Responder, AwaitingSelection, "m1", Some(FIRST), None))
            && n.toResponder == {} && n.used == {"m1"} && n.performed == map[] && n.accepted == []
  {
    var s := Offered(cfg);
    var n1 := Next(cfg, START, s[0]);
    assert n1.toRequester == {MenuOffer("m1", "m1", FIRST)};
    var n2 := Next(cfg, n1, s[1]);
    assert s[1..] == [s[1]] && s[1..][1..] == [];
    assert RunFrom(cfg, n2, []) == n2;
    assert RunFrom(cfg, n1, s[1..]) == n2;
  }

  lemma TwoSteps(cfg: Config, n: Net, a: Step, b: Step)
    ensures RunFrom(cfg, n, [a, b]) == Next(cfg, Next(cfg, n, a), b)
  {
    var n1 := Next(cfg, n, a);
    assert [a, b][1..] == [b] && [b][1..] == [];
    assert RunFrom(cfg, n1, [b]) == RunFrom(cfg, Next(cfg, n1, b), []);
  }

  // A responder that is done with the first menu sends the second one in the same thread, and then receives one more
  // perform message whose choice was made from the first.
  function NextRound(m: Message): seq<Step> {
    [Step.CreateMenu("m2", SECOND), DeliverPerform(m, false, "r")]
  }

  lemma NextRoundBreaksAgreement(cfg: Config, n: Net, m: Message)
    requires m in n.toResponder && m.PerformAction? && m.thread == "m1" && m.selection == GO
    requires n.responder.Some? && n.responder.value.threadId == "m1"
    requires n.responder.value.state == Done || (n.responder.value.state == AwaitingSelection && !cfg.strictResponder)
    requires "m2" !in n.used
    requires m.id in n.performed && n.performed[m.id].menu == FIRST
    ensures !Agreement(RunFrom(cfg, n, NextRound(m)))
  {
    assert SECOND.options[0].name == "go";
    var s := NextRound(m);
    TwoSteps(cfg, n, s[0], s[1]);
    var n1 := Next(cfg, n, s[0]);
    assert n1.responder.value.menu == Some(SECOND);
    var n2 := Next(cfg, n1, s[1]);
    assert n2.accepted[|n2.accepted| - 1].1.menu == SECOND;
  }

  lemma FirstChoiceIsAccepted(cfg: Config, n: Net, m: Message, again: bool)
    requires m in n.toResponder && m.PerformAction? && m.thread == "m1" && m.selection == GO
    requires n.responder == Some(Record(CONNECTION, Responder, AwaitingSelection, "m1", Some(FIRST), None))
    ensures var n' := Next(cfg, n, DeliverPerform(m, again, "r"));
            && n'.responder == Some(Record(CONNECTION, Responder, Done, "m1", Some(FIRST), Some(GO)))
            && n'.toResponder == Receive(cfg, n.toResponder, m, again)
            && n'.used == n.used && n'.performed == n.performed
  {
    assert FIRST.options[0].name == "go";
  }

  lemma FirstChoiceIsSent(cfg: Config, n: Net, id: string)
    requires n.requester.Some? && n.requester.value.role == Requester && n.requester.value.threadId == "m1"
    requires n.requester.value.menu == Some(FIRST) && id !in n.used
    requires !cfg.strictRequester || n.requester.value.state.PreparingSelection?
    ensures var n' := Next(cfg, n, Step.CreatePerform(id, GO));
            && n'.requester == Some(n.requester.value.(performed := Some(GO), state := Done))
            && n'.responder == n.responder
            && n'.toResponder == n.toResponder + {PerformAction(id, "m1", GO)}
            && n'.used == n.used + {id}
            && n'.performed == n.performed[id := Choice("m1", FIRST, GO)]
  {
    assert FIRST.options[0].name == "go";
  }

  // Two performs of one menu are sent, and the first is accepted.
  function PerformedTwice(): seq<Step> {
    [Step.CreatePerform("p1", GO), Step.CreatePerform("p2", GO)]
  }

  function FirstAccepted(): seq<Step> {
    [DeliverPerform(PerformAction("p1", "m1", GO), false, "r"), Drop(PerformAction("p1", "m1", GO))]
  }

  lemma LenientRequesterPerformsTwice(cfg: Config, n: Net)
    requires !cfg.strictRequester
    requires n.requester == Some(Record(CONNECTION, Requester, PreparingSelection, "m1", Some(FIRST), None))
    requires n.used == {"m1"}
    ensures var n' := RunFrom(cfg, n, PerformedTwice());
            && n'.responder == n.responder && n'.used == {"m1", "p1", "p2"}
            && n'.toResponder == n.toResponder + {PerformAction("p1", "m1", GO)} + {PerformAction("p2", "m1", GO)}
            && "p2" in n'.performed && n'.performed["p2"].menu == FIRST
  {
    TwoSteps(cfg, n, PerformedTwice()[0], PerformedTwice()[1]);
    FirstChoiceIsSent(cfg, n, "p1");
    FirstChoiceIsSent(cfg, Next(cfg, n, PerformedTwice()[0]), "p2");
  }

  lemma FirstIsAccepted(cfg: Config, n: Net)
    requires PerformAction("p1", "m1", GO) in n.toResponder && PerformAction("p2", "m1", GO) in n.toResponder
    requires n.responder == Some(Record(CONNECTION, Responder, AwaitingSelection, "m1", Some(FIRST), None))
    ensures var n' := RunFrom(cfg, n, FirstAccepted());
            && n'.responder == Some(Record(CONNECTION, Responder, Done, "m1", Some(FIRST), Some(GO)))
            && n'.used == n.used && n'.performed == n.performed && PerformAction("p2", "m1", GO) in n'.toResponder
  {
    TwoSteps(cfg, n, FirstAccepted()[0], FirstAccepted()[1]);
    FirstChoiceIsAccepted(cfg, n, PerformAction("p1", "m1", GO), false);
  }

  /** A requester that may perform twice can have its second choice accepted against the next menu. */
  lemma LenientRequesterBreaksAgreement(cfg: Config) returns (steps: seq<Step>)
    requires !cfg.strictRequester
    ensures !Agreement(RunFrom(cfg, START, steps))
  {
    var p2 := PerformAction("p2", "m1", GO);
    MenuIsOffered(cfg);
    var n2 := RunFrom(cfg, START, Offered(cfg));
    LenientRequesterPerformsTwice(cfg, n2);
    var n4 := RunFrom(cfg, n2, PerformedTwice());
    FirstIsAccepted(cfg, n4);
    NextRoundBreaksAgreement(cfg, RunFrom(cfg, n4, FirstAccepted()), p2);
    RunInTwoParts(cfg, START, Offered(cfg), PerformedTwice());
    RunInTwoParts(cfg, START, Offered(cfg) + PerformedTwice(), FirstAccepted());
    RunInTwoParts(cfg, START, Offered(cfg) + PerformedTwice() + FirstAccepted(), NextRound(p2));
    steps := Offered(cfg) + PerformedTwice() + FirstAccepted() + NextRound(p2);
  }

  /** A responder that may replace a menu it already sent accepts choices from the menu it replaced. */
  lemma LenientResponderBreaksAgreement(cfg: Config) returns (steps: seq<Step>)
    requires !cfg.strictResponder
    ensures !Agreement(RunFrom(cfg, START, steps))
  {
    MenuIsOffered(cfg);
    var n2 := RunFrom(cfg, START, Offered(cfg));
    var p1 := PerformAction("p1", "m1", GO);
    var s1 := [Step.CreatePerform("p1", GO), ClearRequester];
    TwoSteps(cfg, n2, s1[0], s1[1]);
    FirstChoiceIsSent(cfg, n2, "p1");
    var n4 := RunFrom(cfg, n2, s1);
    RunInTwoParts(cfg, START, Offered(cfg), s1);
    NextRoundBreaksAgreement(cfg, n4, p1);
    RunInTwoParts(cfg, START, Offered(cfg) + s1, NextRound(p1));
    steps := Offered(cfg) + s1 + NextRound(p1);
  }

  /** A perform message that is delivered twice can be accepted against two menus. */
  lemma DuplicatingChannelBreaksAgreement(cfg: Config) returns (steps: seq<Step>)
    requires cfg.duplicating
    ensures !Agreement(RunFrom(cfg, START, steps))
  {
    MenuIsOffered(cfg);
    var n2 := RunFrom(cfg, START, Offered(cfg));
    var p1 := PerformAction("p1", "m1", GO);
    var s1 := [Step.CreatePerform("p1", GO), DeliverPerform(p1, true, "r")];
    TwoSteps(cfg, n2, s1[0], s1[1]);
    FirstChoiceIsSent(cfg, n2, "p1");
    FirstChoiceIsAccepted(cfg, Next(cfg, n2, s1[0]), p1, true);
    RunInTwoParts(cfg, START, Offered(cfg), s1);
    NextRoundBreaksAgreement(cfg, RunFrom(cfg, n2, s1), p1);
    RunInTwoParts(cfg, START, Offered(cfg) + s1, NextRound(p1));
    steps := Offered(cfg) + s1 + NextRound(p1);
  }

  /** Agreement in every run is exactly strict checking on both sides and a channel that does not duplicate, however
      it loses and reorders messages. */
  lemma AgreementExactlyWhenReliable(cfg: Config)
    ensures Reliable(cfg) <==> forall steps :: Agreement(RunFrom(cfg, START, steps))
  {
    if Reliable(cfg) {
      forall steps ensures Agreement(RunFrom(cfg, START, steps)) {
        RunKeepsInv(cfg, START, steps);
      }
    } else {
      var steps;
      if !cfg.strictRequester {
        steps := LenientRequesterBreaksAgreement(cfg);
      } else if !cfg.strictResponder {
        steps := LenientResponderBreaksAgreement(cfg);
      } else {
        steps := DuplicatingChannelBreaksAgreement(cfg);
      }
    }
  }
}
