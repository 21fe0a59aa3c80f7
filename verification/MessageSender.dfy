/** Sending a message: the open session first, then the services in order, then the queue. */
module MessageSender {
  import opened Wrappers
  import opened ServiceOrder

  datatype Channel = Session | Transport(service: Service) | Queue(service: Service)

  datatype Status = SentToSession | SentToTransport | QueuedForPickup | Undeliverable

  datatype Event = Event(message: nat, status: Status)

  datatype Acceptance = Acceptance(message: nat, channel: Channel)

  /** What a send finds. `services` is missing when they cannot be retrieved. */
  datatype Context =
    | ToService(session: bool, service: Service)
    | WithoutConnection
    | ToConnection(session: bool, services: Option<seq<Service>>, preference: Preference, hasDid: bool, didResolves: bool,
                   hasSenderKey: bool, hasAgreementKey: bool, allowQueue: bool)

  datatype Outbound = Outbound(message: nat, context: Context)

  /** Whether handing the message to a channel succeeds, packing it included. */
  type Accepts = Channel -> bool

  function StatusOf(c: Channel): Status {
    match c
    case Session => SentToSession
    case Transport(_) => SentToTransport
    case Queue(_) => QueuedForPickup
  }

  /** The events of a send over a connection that stops before any service is tried. */
  function StopsEarly(c: Context): Option<seq<Status>>
    requires c.ToConnection?
  {
    if c.services.None? || !c.hasDid || !c.didResolves then Some([Undeliverable])
    else if !c.hasSenderKey || (c.preference.v2 && !c.hasAgreementKey) then Some([])
    else None
  }

  function Transports(services: seq<Service>): seq<Channel> {
    seq(|services|, i requires 0 <= i < |services| => Transport(services[i]))
  }

  function QueueChannel(c: Context): Option<Channel>
    requires c.ToConnection? && StopsEarly(c).None?
  {
    var q := QueueOf(c.services.value);
    if q.Some? && c.allowQueue then Some(Queue(q.value)) else None
  }

  /** The services in their order, then the queue. */
  function ServiceChannels(c: Context): seq<Channel>
    requires c.ToConnection? && StopsEarly(c).None?
  {
    Transports(Ordered(c.preference, c.services.value))
    + (if QueueChannel(c).Some? then [QueueChannel(c).value] else [])
  }

  function AfterSession(c: Context): seq<Channel>
    requires c.ToConnection?
  {
    if StopsEarly(c).Some? then [] else ServiceChannels(c)
  }

  /** The channels a send tries, in order. */
  function Channels(c: Context): seq<Channel> {
    match c
    case ToService(session, service) => (if session then [Session] else []) + [Transport(service)]
    case WithoutConnection => []
    case ToConnection(session, _, _, _, _, _, _, _) => (if session then [Session] else []) + AfterSession(c)
  }

  /** The events of a send that every channel refuses. A failing queue passes its own error on. */
  function FailureStatuses(c: Context): seq<Status> {
    if c.ToConnection? && StopsEarly(c).Some? then StopsEarly(c).value
    else if c.ToConnection? && QueueChannel(c).Some? then []
    else [Undeliverable]
  }

  /** The first channel that accepts, if any does. */
  function FirstAccepting(channels: seq<Channel>, accepts: Accepts): (c: Option<Channel>)
    ensures c.None? <==> forall d :: d in channels ==> !accepts(d)
    ensures c.Some? ==> exists i :: 0 <= i < |channels| && channels[i] == c.value && accepts(c.value)
                                    && forall j :: 0 <= j < i ==> !accepts(channels[j])
  {
    if channels == [] then None
    else if accepts(channels[0]) then Some(channels[0])
    else
      var c := FirstAccepting(channels[1..], accepts);
      assert c.Some? ==> exists i :: 1 <= i < |channels| && channels[i] == c.value && accepts(c.value)
                                     && forall j :: 0 <= j < i ==> !accepts(channels[j]) by {
        if c.Some? {
          var i :| 0 <= i < |channels[1..]| && channels[1..][i] == c.value && accepts(c.value)
                   && forall j :: 0 <= j < i ==> !accepts(channels[1..][j]);
          assert channels[i + 1] == c.value;
          assert forall j :: 0 < j < i + 1 ==> channels[j] == channels[1..][j - 1];
        }
      }
      assert forall d :: d in channels <==> d == channels[0] || d in channels[1..];
      c
  }

  lemma {:induction false} FirstAcceptingAppend(a: seq<Channel>, b: seq<Channel>, accepts: Accepts)
    ensures FirstAccepting(a + b, accepts) ==
            if FirstAccepting(a, accepts).Some? then FirstAccepting(a, accepts) else FirstAccepting(b, accepts)
  {
    if a == [] {
      assert a + b == b;
    } else {
      assert (a + b)[1..] == a[1..] + b;
      FirstAcceptingAppend(a[1..], b, accepts);
    }
  }

  lemma {:induction false} FirstIsHere(channels: seq<Channel>, i: nat, accepts: Accepts)
    requires i < |channels| && accepts(channels[i]) && forall j :: 0 <= j < i ==> !accepts(channels[j])
    ensures FirstAccepting(channels, accepts) == Some(channels[i])
  {
    if i > 0 { FirstIsHere(channels[1..], i - 1, accepts); }
  }

  function Events(message: nat, statuses: seq<Status>): seq<Event> {
    seq(|statuses|, i requires 0 <= i < |statuses| => Event(message, statuses[i]))
  }

  /** The success events of a history, as what they claim: which message went, by which kind of channel. */
  function Successes(events: seq<Event>): seq<Event> {
    if events == [] then []
    else Successes(events[..|events| - 1])
         + (if events[|events| - 1].status.Undeliverable? then [] else [events[|events| - 1]])
  }

  function Claims(accepted: seq<Acceptance>): seq<Event> {
    seq(|accepted|, i requires 0 <= i < |accepted| => Event(accepted[i].message, StatusOf(accepted[i].channel)))
  }

  /** A success status tells the kind of channel that took the message, and none is a failure. */
  lemma StatusTellsTheKind(c: Channel)
    ensures StatusOf(c) == SentToSession <==> c.Session?
    ensures StatusOf(c) == SentToTransport <==> c.Transport?
    ensures StatusOf(c) == QueuedForPickup <==> c.Queue?
    ensures StatusOf(c) != Undeliverable
  {
  }

  /** A message with a given service goes over the session if there is one that takes it, else to that service, and
      nowhere else; if both refuse it is undeliverable. */
  lemma GivenServiceIsTried(session: bool, service: Service, accepts: Accepts)
    ensures var c := ToService(session, service);
      && FailureStatuses(c) == [Undeliverable]
      && FirstAccepting(Channels(c), accepts) ==
         if session && accepts(Session) then Some(Session)
         else if accepts(Transport(service)) then Some(Transport(service)) else None
  {
    FirstAcceptingAppend(if session then [Session] else [], [Transport(service)], accepts);
  }

  /** A send over a connection reports that it is undeliverable unless our key to send with is missing, or the queue was
      tried last and passed its own error on. */
  lemma FailureIsReportedExactlyWhen(c: Context)
    requires c.ToConnection?
    ensures var found := c.services.Some? && c.hasDid && c.didResolves;
      var keys := c.hasSenderKey && (c.preference.v2 ==> c.hasAgreementKey);
      FailureStatuses(c) ==
      if !found then [Undeliverable]
      else if !keys then []
      else if c.allowQueue && (exists s :: s in c.services.value && s.queue) then []
      else [Undeliverable]
  {
  }

  lemma OneMoreEvent(events: seq<Event>, e: Event)
    ensures Successes(events + [e]) == Successes(events) + (if e.status.Undeliverable? then [] else [e])
  {
    assert (events + [e])[..|events|] == events;
  }

  lemma NoEvents(message: nat)
    ensures Events(message, []) == []
  {
  }

  lemma SessionComesFirst(c: Context, accepts: Accepts)
    requires c.ToConnection?
    ensures FirstAccepting(Channels(c), accepts) ==
            if c.session && accepts(Session) then Some(Session) else FirstAccepting(AfterSession(c), accepts)
  {
    FirstAcceptingAppend(if c.session then [Session] else [], AfterSession(c), accepts);
  }

  class DidCommMessageSender {
    /** The events emitted and the messages accepted so far. */
    var events: seq<Event>
    var accepted: seq<Acceptance>

    /** Every message a channel accepted has one success event that names the kind of channel, and there are no other
        success events. */
    ghost predicate Valid()
      reads this
    {
      Successes(events) == Claims(accepted)
    }

    /** What sending over a list of channels leaves behind. */
    twostate predicate Sent(message: nat, c: Option<Channel>, failure: seq<Status>)
      reads this
    {
      if c.Some? then
        && accepted == old(accepted) + [Acceptance(message, c.value)]
        && events == old(events) + [Event(message, StatusOf(c.value))]
      else
        accepted == old(accepted) && events == old(events) + Events(message, failure)
    }

    constructor ()
      ensures Valid() && events == [] && accepted == []
    {
      events, accepted := [], [];
    }

    /** Hands the message to a channel and reports a success. */
    method Hand(message: nat, c: Channel, accepts: Accepts) returns (sent: bool)
      modifies this
      ensures sent == accepts(c)
      ensures Sent(message, if sent then Some(c) else None, [])
      ensures old(Valid()) ==> Valid()
    {
      sent := accepts(c);
      if sent {
        OneMoreEvent(events, Event(message, StatusOf(c)));
        assert Claims(accepted + [Acceptance(message, c)]) == Claims(accepted) + [Event(message, StatusOf(c))];
        accepted := accepted + [Acceptance(message, c)];
        events := events + [Event(message, StatusOf(c))];
      } else {
        NoEvents(message);
      }
    }

    method Report(message: nat, statuses: seq<Status>)
      requires statuses == [] || statuses == [Undeliverable]
      modifies this
      ensures Sent(message, None, statuses)
      ensures old(Valid()) ==> Valid()
    {
      if statuses == [Undeliverable] {
        assert Events(message, statuses) == [Event(message, Undeliverable)];
        OneMoreEvent(events, Event(message, Undeliverable));
        events := events + [Event(message, Undeliverable)];
      } else {
        assert Events(message, statuses) == [];
      }
    }

    method TryServices(message: nat, services: seq<Service>, accepts: Accepts) returns (sent: bool)
      modifies this
      ensures sent <==> FirstAccepting(Transports(services), accepts).Some?
      ensures Sent(message, FirstAccepting(Transports(services), accepts), [])
      ensures old(Valid()) ==> Valid()
    {
      ghost var channels := Transports(services);
      for i := 0 to |services|
        invariant forall j :: 0 <= j < i ==> !accepts(channels[j])
        invariant accepted == old(accepted) && events == old(events)
      {
        sent := Hand(message, Transport(services[i]), accepts);
        if sent {
          FirstIsHere(channels, i, accepts);
          return true;
        }
        NoEvents(message);
      }
      NoEvents(message);
      sent := false;
    }

    /** A send that returns normally was accepted by exactly one channel, the first of those tried that accepts, and
        emitted exactly one success status, which names it. A send throws exactly when every channel refuses, and then
        emitted no success status. */
    method SendOutboundMessage(o: Outbound, accepts: Accepts) returns (threw: bool)
      modifies this
      ensures threw <==> forall c :: c in Channels(o.context) ==> !accepts(c)
      ensures Sent(o.message, FirstAccepting(Channels(o.context), accepts), FailureStatuses(o.context))
      ensures old(Valid()) ==> Valid()
    {
      var c := o.context;
      if c.ToService? {
        threw := SendMessageToService(o, accepts);
        return;
      }
      if c.WithoutConnection? {
        Report(o.message, [Undeliverable]);
        return true;
      }
      SessionComesFirst(c, accepts);
      if c.session {
        var sent := Hand(o.message, Session, accepts);
        if sent { return false; }
        NoEvents(o.message);
      }
      threw := SendWithoutSession(o, accepts);
    }

    method SendWithoutSession(o: Outbound, accepts: Accepts) returns (threw: bool)
      requires o.context.ToConnection?
      modifies this
      ensures threw <==> FirstAccepting(AfterSession(o.context), accepts).None?
      ensures Sent(o.message, FirstAccepting(AfterSession(o.context), accepts), FailureStatuses(o.context))
      ensures old(Valid()) ==> Valid()
    {
      var c := o.context;
      if c.services.None? || !c.hasDid || !c.didResolves {
        Report(o.message, [Undeliverable]);
        return true;
      }
      if !c.hasSenderKey || (c.preference.v2 && !c.hasAgreementKey) {
        Report(o.message, []);
        return true;
      }
      threw := SendToServicesOrQueue(o, accepts);
    }

    method SendToServicesOrQueue(o: Outbound, accepts: Accepts) returns (threw: bool)
      requires o.context.ToConnection? && StopsEarly(o.context).None?
      modifies this
      ensures threw <==> FirstAccepting(ServiceChannels(o.context), accepts).None?
      ensures Sent(o.message, FirstAccepting(ServiceChannels(o.context), accepts), FailureStatuses(o.context))
      ensures old(Valid()) ==> Valid()
    {
      var c := o.context;
      var q := QueueChannel(c);
      FirstAcceptingAppend(Transports(Ordered(c.preference, c.services.value)), if q.Some? then [q.value] else [], accepts);
      var sent := TryServices(o.message, Ordered(c.preference, c.services.value), accepts);
      if sent { return false; }
      NoEvents(o.message);
      if q.Some? {
        sent := Hand(o.message, q.value, accepts);
        return !sent;
      }
      Report(o.message, [Undeliverable]);
      threw := true;
    }

    method SendMessageToService(o: Outbound, accepts: Accepts) returns (threw: bool)
      requires o.context.ToService?
      modifies this
      ensures threw <==> forall c :: c in Channels(o.context) ==> !accepts(c)
      ensures Sent(o.message, FirstAccepting(Channels(o.context), accepts), FailureStatuses(o.context))
      ensures old(Valid()) ==> Valid()
    {
      var sent := false;
      if o.context.session {
        sent := Hand(o.message, Session, accepts);
        if sent { return false; }
        NoEvents(o.message);
      }
      sent := Hand(o.message, Transport(o.context.service), accepts);
      if sent { return false; }
      NoEvents(o.message);
      Report(o.message, [Undeliverable]);
      threw := true;
    }
  }

  // ---- What a send tries ----

  /** Over a connection a message is handed to the session, then to the allowed services in their stable order, and to
      a queue only after them and if the message may be queued. */
  lemma ServicesAreTriedInStableOrder(c: Context)
    requires c.ToConnection? && StopsEarly(c).None?
    ensures exists services ::
      && StablyOrdered(c.preference, AllowedOf(c.preference, c.services.value), services)
      && multiset(services) == multiset(AllowedOf(c.preference, c.services.value))
      && Channels(c) == (if c.session then [Session] else [])
                        + (Transports(services) + (if QueueChannel(c).Some? then [QueueChannel(c).value] else []))
  {
    OrderedIsTheStableOrder(c.preference, c.services.value);
  }

  /** No message is sent to a queue as if it were a transport, or queued although it may not be. */
  lemma OnlySuitableChannelsAreTried(c: Context, d: Channel)
    requires c.ToConnection? && StopsEarly(c).None? && d in Channels(c)
    ensures d.Transport? ==> d.service in c.services.value && !d.service.queue
    ensures d.Queue? ==> d.service in c.services.value && d.service.queue && c.allowQueue
  {
    var ordered := Ordered(c.preference, c.services.value);
    OrderedIsTheStableOrder(c.preference, c.services.value);
    if d.Transport? {
      assert d in Transports(ordered);
      assert d.service in multiset(ordered);
      AllowedAreServices(c.preference, c.services.value, d.service);
    }
  }

  lemma {:induction false} AllowedAreServices(p: Preference, services: seq<Service>, s: Service)
    ensures s in AllowedOf(p, services) <==> s in services && Allowed(p, s)
  {
    if services != [] { AllowedAreServices(p, services[1..], s); }
  }

  /** A message without a connection, or whose sender key cannot be found, is not handed to any service. */
  lemma StoppedSendsReachNoService(c: Context)
    requires c.WithoutConnection? || (c.ToConnection? && StopsEarly(c).Some?)
    ensures forall d :: d in Channels(c) ==> d == Session
    ensures c.ToConnection? && c.services.Some? && c.hasDid && c.didResolves ==> FailureStatuses(c) == []
  {
  }
}
